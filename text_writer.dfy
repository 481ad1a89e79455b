/**
 * The text renderers as `PackageTree` runs them: each appends to an `Appendable`
 * step by step, and the list renderer keeps the dotted path in a `StringBuilder`
 * that it grows before a node's children and cuts back afterwards.  Every method
 * is proved to append exactly the text the matching function of `TreePrinting`
 * describes, so the properties proved there (one line per visit of the walk, the
 * list and the tree printing the same nodes) hold for what is written here.
 * The JSON renderer drives a JSON writer instead and stays a function.
 */
module TextWriting {
  import opened Wrappers
  import opened JavaStrings
  import opened PackageTrees
  import opened PrintOptionsModel
  import opened ChildOrder
  import TreePrinting

  /** The output a renderer appends to (`out`) and the list renderer's path
      builder (`sb`). */
  class TextWriter {
    var out: string
    var sb: string

    constructor()
      ensures out == "" && sb == ""
    {
      out := "";
      sb := "";
    }

    /** The `for (i in 0 until k) out.append("  ")` loop of the tree renderer. */
    method AppendSpaces(k: int)
      modifies this
      ensures out == old(out) + TreePrinting.Spaces(k)
      ensures sb == old(sb)
    {
      var m := if k < 0 then 0 else k;
      for i := 0 to m
        invariant out == old(out) + TreePrinting.Spaces(i)
        invariant sb == old(sb)
      {
        SpacesSnoc(i);
        Assoc(old(out), TreePrinting.Spaces(i), "  ");
        out := out + "  ";
      }
    }

    /* -------------------------------------------------------------------
     * LIST
     * ------------------------------------------------------------------- */

    /** `printPackageList`: the totals, the header, then each top-level child
        with a fresh, empty path builder. */
    method PrintPackageList(root: Node, opts: PrintOptions)
      modifies this
      ensures out == old(out) + TreePrinting.PrintPackageList(root, opts)
      ensures sb == ""
    {
      sb := "";
      var o := out;
      var total := if opts.includeTotalMethodCount && opts.androidProject
        then "Total methods: " + IntToString(TreePrinting.MethodCount(root)) + "\n" else "";
      out := out + total;
      var declared := if opts.includeTotalMethodCount && opts.printDeclarations
        then "Total declared methods: " + IntToString(Count(root, Classes, DECLARED)) + "\n" else "";
      out := out + declared;
      var header := if opts.printHeader then TreePrinting.ListHeader(opts) else "";
      out := out + header;
      assert TreePrinting.ListTotals(root, opts) == total + declared;
      Assoc(o, total, declared);
      Assoc(o, total + declared, header);
      var top := (total + declared) + header;
      PrintListChildren(root, 0, opts);
      Assoc(o, top, TreePrinting.ListChildren(root, GetChildren(root, opts), "", 0, opts));
    }

    /** The count columns of one line; the declared columns are wider under a
        header. */
    method AppendListColumns(n: Node, opts: PrintOptions)
      modifies this
      ensures out == old(out) + TreePrinting.ListColumns(n, opts)
      ensures sb == old(sb)
    {
      var o := out;
      var classes := if opts.includeClassCount then TreePrinting.Column(TreePrinting.ClassCount(n), 8) else "";
      out := out + classes;
      var methods := if opts.androidProject && opts.includeMethodCount
        then TreePrinting.Column(TreePrinting.MethodCount(n), 8) else "";
      out := out + methods;
      var fields := if opts.androidProject && opts.includeFieldCount
        then TreePrinting.Column(TreePrinting.FieldCount(n), 8) else "";
      out := out + fields;
      var w := if opts.printHeader then 16 else 8;
      var declared := if opts.printDeclarations
        then TreePrinting.Column(TreePrinting.MethodCountDeclared(n), w) + TreePrinting.Column(TreePrinting.FieldCountDeclared(n), w)
        else "";
      out := out + declared;
      assert TreePrinting.ListColumns(n, opts) == classes + (methods + fields) + declared;
      Assoc(o + classes, methods, fields);
      Assoc(o, classes, methods + fields);
      Assoc(o, classes + (methods + fields), declared);
    }

    /** `printPackageListRecursively`: a node is only ever reached through
        `getChildren`, so it is printable (the source checks this and fails
        otherwise); the path builder is left as it was found. */
    method PrintPackageListRecursively(n: Node, depth: int, opts: PrintOptions)
      requires IsPrintable(n, opts)
      modifies this
      ensures out == old(out) + TreePrinting.ListNode(n, old(sb), depth, opts)
      ensures sb == old(sb)
      decreases n, 1
    {
      if depth >= opts.maxTreeDepth {
        return;
      }
      var o := out;
      var len := |sb|;
      if len > 0 {
        sb := sb + ".";
      }
      sb := sb + n.name;
      assert sb == TreePrinting.ChildPath(old(sb), n.name);
      assert sb[..len] == old(sb);
      AppendListColumns(n, opts);
      out := out + sb;
      out := out + "\n";
      var cols := TreePrinting.ListColumns(n, opts);
      Assoc(o, cols, sb);
      Assoc(o, cols + sb, "\n");
      var line := TreePrinting.ListLine(n, sb, opts);
      PrintListChildren(n, depth + 1, opts);
      Assoc(o, line, TreePrinting.ListChildren(n, GetChildren(n, opts), sb, depth + 1, opts));
      sb := sb[..len];
    }

    /** The `for (child in getChildren(opts))` loop of the list renderer. */
    method PrintListChildren(n: Node, depth: int, opts: PrintOptions)
      modifies this
      ensures out == old(out) + TreePrinting.ListChildren(n, GetChildren(n, opts), old(sb), depth, opts)
      ensures sb == old(sb)
      decreases n, 0
    {
      var ks := GetChildren(n, opts);
      for i := 0 to |ks|
        invariant out == old(out) + TreePrinting.ListChildren(n, ks[..i], old(sb), depth, opts)
        invariant sb == old(sb)
      {
        ChildrenMembers(n, opts, ks[i]);
        PrintPackageListRecursively(n.children[ks[i]], depth, opts);
        ListChildrenSnoc(n, ks, i, sb, depth, opts);
        Assoc(old(out), TreePrinting.ListChildren(n, ks[..i], sb, depth, opts),
              TreePrinting.ListNode(n.children[ks[i]], sb, depth, opts));
      }
      assert ks[..|ks|] == ks;
    }

    /* -------------------------------------------------------------------
     * TREE
     * ------------------------------------------------------------------- */

    /** `printTree`: each top-level child at depth 0. */
    method PrintTree(root: Node, opts: PrintOptions)
      modifies this
      ensures out == old(out) + TreePrinting.PrintTree(root, opts)
      ensures sb == old(sb)
    {
      PrintTreeChildren(root, 0, opts);
    }

    /** One switched-on part of a tree line: ", " first when something has
        already been appended. */
    method AppendPart(ghost base: string, ghost acc: string, on: bool, appended: bool, x: string) returns (appended': bool)
      requires out == base + acc
      modifies this
      ensures out == base + (if on then acc + (if appended then ", " else "") + x else acc)
      ensures appended' == (appended || on)
      ensures sb == old(sb)
    {
      appended' := appended;
      if on {
        var sep := if appended then ", " else "";
        out := out + sep;
        out := out + x;
        Assoc(base, acc, sep);
        Assoc(base, acc + sep, x);
        appended' := true;
      }
    }

    /** The text inside the parentheses: the switched-on parts joined by ", ". */
    method AppendTreeCounts(n: Node, opts: PrintOptions)
      modifies this
      ensures out == old(out) + TreePrinting.TreeCounts(n, opts)
      ensures sb == old(sb)
    {
      var o := out;
      var b1 := opts.includeClassCount;
      var b2 := opts.androidProject && opts.includeMethodCount;
      var b3 := opts.androidProject && opts.includeFieldCount;
      var b4 := opts.printDeclarations;
      var x1, x2, x3, x4 := TreePrinting.ClassPart(n), TreePrinting.MethodPart(n), TreePrinting.FieldPart(n), TreePrinting.DeclaredPart(n);
      ghost var s1 := if b1 then x1 else "";
      ghost var s2 := if b2 then s1 + (if b1 then ", " else "") + x2 else s1;
      ghost var s3 := if b3 then s2 + (if b1 || b2 then ", " else "") + x3 else s2;
      ghost var s4 := if b4 then s3 + (if b1 || b2 || b3 then ", " else "") + x4 else s3;
      assert o == o + "";
      var appended := AppendPart(o, "", b1, false, x1);
      assert "" + x1 == x1;
      appended := AppendPart(o, s1, b2, appended, x2);
      appended := AppendPart(o, s2, b3, appended, x3);
      appended := AppendPart(o, s3, b4, appended, x4);
      assert TreePrinting.TreeCounts(n, opts) == s4;
    }

    /** One line of the tree: the indent, the name and, when any count is
        switched on, the counts in parentheses and the newline. */
    method AppendTreeLine(n: Node, depth: int, opts: PrintOptions)
      modifies this
      ensures out == old(out) + TreePrinting.TreeLine(n, depth, opts)
      ensures sb == old(sb)
    {
      var o := out;
      AppendSpaces(depth);
      out := out + n.name;
      var p := TreePrinting.Spaces(depth) + n.name;
      Assoc(o, TreePrinting.Spaces(depth), n.name);
      var q := "";
      if TreePrinting.AnyCount(opts) {
        out := out + " (";
        AppendTreeCounts(n, opts);
        out := out + ")\n";
        var tc := TreePrinting.TreeCounts(n, opts);
        Assoc(o + p, " (", tc);
        Assoc(o + p, " (" + tc, ")\n");
        q := " (" + tc + ")\n";
      } else {
        assert out == (o + p) + q;
      }
      Assoc(o, p, q);
    }

    /** `printTreeRecursively`: the node's line, then its children a level
        deeper. */
    method PrintTreeRecursively(n: Node, depth: int, opts: PrintOptions)
      modifies this
      ensures out == old(out) + TreePrinting.TreeNode(n, depth, opts)
      ensures sb == old(sb)
      decreases n, 1
    {
      if depth >= opts.maxTreeDepth {
        return;
      }
      AppendTreeLine(n, depth, opts);
      PrintTreeChildren(n, depth + 1, opts);
      Assoc(old(out), TreePrinting.TreeLine(n, depth, opts), TreePrinting.TreeChildren(n, GetChildren(n, opts), depth + 1, opts));
    }

    /** The `for (child in getChildren(opts))` loop of the tree renderer. */
    method PrintTreeChildren(n: Node, depth: int, opts: PrintOptions)
      modifies this
      ensures out == old(out) + TreePrinting.TreeChildren(n, GetChildren(n, opts), depth, opts)
      ensures sb == old(sb)
      decreases n, 0
    {
      var ks := GetChildren(n, opts);
      for i := 0 to |ks|
        invariant out == old(out) + TreePrinting.TreeChildren(n, ks[..i], depth, opts)
        invariant sb == old(sb)
      {
        PrintTreeRecursively(n.children[ks[i]], depth, opts);
        TreeChildrenSnoc(n, ks, i, depth, opts);
        Assoc(old(out), TreePrinting.TreeChildren(n, ks[..i], depth, opts), TreePrinting.TreeNode(n.children[ks[i]], depth, opts));
      }
      assert ks[..|ks|] == ks;
    }

    /* -------------------------------------------------------------------
     * YAML
     * ------------------------------------------------------------------- */


    /** The count lines of `printYaml` and `printYamlRecursively`, each behind
        the indent. */
    method AppendYamlCounts(indent: string, n: Node, opts: PrintOptions)
      modifies this
      ensures out == old(out) + TreePrinting.YamlCounts(indent, n, opts)
      ensures sb == old(sb)
    {
      var o := out;
      var classes := if opts.includeClassCount
        then indent + "classes: " + IntToString(TreePrinting.ClassCount(n)) + "\n" else "";
      out := out + classes;
      var methods := if opts.androidProject && opts.includeMethodCount
        then indent + "methods: " + IntToString(TreePrinting.MethodCount(n)) + "\n" else "";
      out := out + methods;
      var fields := if opts.androidProject && opts.includeFieldCount
        then indent + "fields: " + IntToString(TreePrinting.FieldCount(n)) + "\n" else "";
      out := out + fields;
      var declared := if opts.printDeclarations
        then indent + "declared_methods: " + IntToString(TreePrinting.MethodCountDeclared(n)) + "\n"
             + indent + "declared_fields: " + IntToString(TreePrinting.FieldCountDeclared(n)) + "\n"
        else "";
      out := out + declared;
      assert TreePrinting.YamlCounts(indent, n, opts) == classes + (methods + fields) + declared;
      Assoc(o + classes, methods, fields);
      Assoc(o, classes, methods + fields);
      Assoc(o, classes + (methods + fields), declared);
    }

    /** `printYaml`: the document marker, the root's count lines, then each
        top-level child at depth 0. */
    method PrintYaml(root: Node, opts: PrintOptions)
      modifies this
      ensures out == old(out) + TreePrinting.PrintYaml(root, opts)
      ensures sb == old(sb)
    {
      var o := out;
      out := out + "---\n";
      AppendYamlCounts("", root, opts);
      out := out + "counts:\n";
      var counts := TreePrinting.YamlCounts("", root, opts);
      Assoc(o, "---\n", counts);
      Assoc(o, "---\n" + counts, "counts:\n");
      var top := "---\n" + counts + "counts:\n";
      PrintYamlChildren(root, 0, opts);
      Assoc(o, top, TreePrinting.YamlChildren(root, GetChildren(root, opts), 0, opts));
    }

    /** What `printYamlRecursively` writes before the children: the name line,
        the count lines and the children line; it answers the children it lists,
        none one level above the depth limit. */
    method AppendYamlChunk(n: Node, depth: int, opts: PrintOptions) returns (childNodes: seq<string>)
      modifies this
      ensures out == old(out) + TreePrinting.YamlChunk(n, depth, opts)
      ensures childNodes == TreePrinting.YamlKids(n, depth, opts)
      ensures sb == old(sb)
    {
      var o := out;
      var indent := Indent(2 * depth + 1);
      var head := indent + "- name: " + n.name + "\n";
      out := out + head;
      var inner := indent + "  ";
      AppendYamlCounts(inner, n, opts);
      var counts := TreePrinting.YamlCounts(inner, n, opts);
      Assoc(o, head, counts);
      childNodes := if depth + 1 == opts.maxTreeDepth then [] else GetChildren(n, opts);
      var last := if childNodes == [] then "children: []\n" else "children:\n";
      out := out + inner;
      out := out + last;
      Assoc(o, head + counts, inner);
      Assoc(o, head + counts + inner, last);
    }

    /** `printYamlRecursively`: cut off only beyond the depth limit (`depth >
        max`), and no children listed one level above it. */
    method PrintYamlRecursively(n: Node, depth: int, opts: PrintOptions)
      modifies this
      ensures out == old(out) + TreePrinting.YamlNode(n, depth, opts)
      ensures sb == old(sb)
      decreases n, 1
    {
      if depth > opts.maxTreeDepth {
        return;
      }
      var childNodes := AppendYamlChunk(n, depth, opts);
      if childNodes == [] {
        return;
      }
      PrintYamlChildren(n, depth + 1, opts);
      Assoc(old(out), TreePrinting.YamlChunk(n, depth, opts), TreePrinting.YamlChildren(n, GetChildren(n, opts), depth + 1, opts));
    }

    /** The `for (child in getChildren(opts))` loop of the YAML renderer. */
    method PrintYamlChildren(n: Node, depth: int, opts: PrintOptions)
      modifies this
      ensures out == old(out) + TreePrinting.YamlChildren(n, GetChildren(n, opts), depth, opts)
      ensures sb == old(sb)
      decreases n, 0
    {
      var ks := GetChildren(n, opts);
      for i := 0 to |ks|
        invariant out == old(out) + TreePrinting.YamlChildren(n, ks[..i], depth, opts)
        invariant sb == old(sb)
      {
        PrintYamlRecursively(n.children[ks[i]], depth, opts);
        YamlChildrenSnoc(n, ks, i, depth, opts);
        Assoc(old(out), TreePrinting.YamlChildren(n, ks[..i], depth, opts), TreePrinting.YamlNode(n.children[ks[i]], depth, opts));
      }
      assert ks[..|ks|] == ks;
    }
  }

  /** The indent builder of `printYamlRecursively`: k copies of two spaces. */
  method Indent(k: int) returns (s: string)
    ensures s == TreePrinting.Spaces(k)
    ensures |s| == if k <= 0 then 0 else 2 * k
  {
    s := "";
    var m := if k < 0 then 0 else k;
    for i := 0 to m
      invariant s == TreePrinting.Spaces(i)
    {
      SpacesSnoc(i);
      s := s + "  ";
    }
  }

  /** Appending is associative: appending in pieces writes the whole. */
  lemma Assoc(a: string, b: string, c: string)
    ensures (a + b) + c == a + (b + c)
  {
  }

  /** Two more spaces at the end are one more level of indent. */
  lemma {:induction false} SpacesSnoc(k: nat)
    ensures TreePrinting.Spaces(k + 1) == TreePrinting.Spaces(k) + "  "
  {
    if k > 0 {
      SpacesSnoc(k - 1);
    }
  }

  lemma {:induction false} ListChildrenAppend(n: Node, a: seq<string>, b: seq<string>, prefix: string, depth: int, opts: PrintOptions)
    requires forall i | 0 <= i < |a| :: a[i] in n.children
    requires forall i | 0 <= i < |b| :: b[i] in n.children
    ensures TreePrinting.ListChildren(n, a + b, prefix, depth, opts)
         == TreePrinting.ListChildren(n, a, prefix, depth, opts) + TreePrinting.ListChildren(n, b, prefix, depth, opts)
    decreases |a|
  {
    if a == [] {
      assert a + b == b;
    } else {
      assert (a + b)[1..] == a[1..] + b;
      ListChildrenAppend(n, a[1..], b, prefix, depth, opts);
      Assoc(TreePrinting.ListNode(n.children[a[0]], prefix, depth, opts),
            TreePrinting.ListChildren(n, a[1..], prefix, depth, opts), TreePrinting.ListChildren(n, b, prefix, depth, opts));
    }
  }

  /** The list of the first i + 1 children is that of the first i, then the next. */
  lemma ListChildrenSnoc(n: Node, ks: seq<string>, i: nat, prefix: string, depth: int, opts: PrintOptions)
    requires i < |ks|
    requires forall j | 0 <= j < |ks| :: ks[j] in n.children
    ensures TreePrinting.ListChildren(n, ks[..i + 1], prefix, depth, opts)
         == TreePrinting.ListChildren(n, ks[..i], prefix, depth, opts) + TreePrinting.ListNode(n.children[ks[i]], prefix, depth, opts)
  {
    assert ks[..i + 1] == ks[..i] + [ks[i]];
    ListChildrenAppend(n, ks[..i], [ks[i]], prefix, depth, opts);
    assert [ks[i]][1..] == [];
  }

  lemma {:induction false} TreeChildrenAppend(n: Node, a: seq<string>, b: seq<string>, depth: int, opts: PrintOptions)
    requires forall i | 0 <= i < |a| :: a[i] in n.children
    requires forall i | 0 <= i < |b| :: b[i] in n.children
    ensures TreePrinting.TreeChildren(n, a + b, depth, opts)
         == TreePrinting.TreeChildren(n, a, depth, opts) + TreePrinting.TreeChildren(n, b, depth, opts)
    decreases |a|
  {
    if a == [] {
      assert a + b == b;
    } else {
      assert (a + b)[1..] == a[1..] + b;
      TreeChildrenAppend(n, a[1..], b, depth, opts);
      Assoc(TreePrinting.TreeNode(n.children[a[0]], depth, opts),
            TreePrinting.TreeChildren(n, a[1..], depth, opts), TreePrinting.TreeChildren(n, b, depth, opts));
    }
  }

  lemma TreeChildrenSnoc(n: Node, ks: seq<string>, i: nat, depth: int, opts: PrintOptions)
    requires i < |ks|
    requires forall j | 0 <= j < |ks| :: ks[j] in n.children
    ensures TreePrinting.TreeChildren(n, ks[..i + 1], depth, opts)
         == TreePrinting.TreeChildren(n, ks[..i], depth, opts) + TreePrinting.TreeNode(n.children[ks[i]], depth, opts)
  {
    assert ks[..i + 1] == ks[..i] + [ks[i]];
    TreeChildrenAppend(n, ks[..i], [ks[i]], depth, opts);
    assert [ks[i]][1..] == [];
  }

  lemma {:induction false} YamlChildrenAppend(n: Node, a: seq<string>, b: seq<string>, depth: int, opts: PrintOptions)
    requires forall i | 0 <= i < |a| :: a[i] in n.children
    requires forall i | 0 <= i < |b| :: b[i] in n.children
    ensures TreePrinting.YamlChildren(n, a + b, depth, opts)
         == TreePrinting.YamlChildren(n, a, depth, opts) + TreePrinting.YamlChildren(n, b, depth, opts)
    decreases |a|
  {
    if a == [] {
      assert a + b == b;
    } else {
      assert (a + b)[1..] == a[1..] + b;
      YamlChildrenAppend(n, a[1..], b, depth, opts);
      Assoc(TreePrinting.YamlNode(n.children[a[0]], depth, opts),
            TreePrinting.YamlChildren(n, a[1..], depth, opts), TreePrinting.YamlChildren(n, b, depth, opts));
    }
  }

  lemma YamlChildrenSnoc(n: Node, ks: seq<string>, i: nat, depth: int, opts: PrintOptions)
    requires i < |ks|
    requires forall j | 0 <= j < |ks| :: ks[j] in n.children
    ensures TreePrinting.YamlChildren(n, ks[..i + 1], depth, opts)
         == TreePrinting.YamlChildren(n, ks[..i], depth, opts) + TreePrinting.YamlNode(n.children[ks[i]], depth, opts)
  {
    assert ks[..i + 1] == ks[..i] + [ks[i]];
    YamlChildrenAppend(n, ks[..i], [ks[i]], depth, opts);
    assert [ks[i]][1..] == [];
  }
}

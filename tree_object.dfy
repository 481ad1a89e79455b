/**
 * The `PackageTree` object a caller builds and queries: its root node is
 * replaced by each insertion and each count query.
 */
module PackageTreeObject {
  import opened MethodRefs
  import opened Deobfuscation
  import opened PackageTrees
  import opened PrintOptionsModel
  import opened OutputFormats
  import opened Wrappers
  import opened TreePrinting
  import opened TextWriting

  /** The object a caller builds and queries: its root node, the deobfuscator and
      the descriptor-to-dotted-name conversion it files references with. */
  class PackageTree {
    var root: Node
    const deobfuscator: Deobfuscator
    const toDot: string -> string

    /** `PackageTree(name, isClass, deobfuscator)`. */
    constructor (name: string, isClass: bool, deobfuscator: Deobfuscator, toDot: string -> string)
      ensures root == NewNode(name, isClass)
      ensures this.deobfuscator == deobfuscator && this.toDot == toDot
    {
      root := NewNode(name, isClass);
      this.deobfuscator := deobfuscator;
      this.toDot := toDot;
    }

    method AddMethodRef(m: MethodRef)
      modifies this
      ensures root == AddRef(old(root), toDot, deobfuscator, REFERENCED, MethodItem(m))
    {
      root := AddRef(root, toDot, deobfuscator, REFERENCED, MethodItem(m));
    }

    method AddFieldRef(f: FieldRef)
      modifies this
      ensures root == AddRef(old(root), toDot, deobfuscator, REFERENCED, FieldItem(f))
    {
      root := AddRef(root, toDot, deobfuscator, REFERENCED, FieldItem(f));
    }

    method AddDeclaredMethodRef(m: MethodRef)
      modifies this
      ensures root == AddRef(old(root), toDot, deobfuscator, DECLARED, MethodItem(m))
    {
      root := AddRef(root, toDot, deobfuscator, DECLARED, MethodItem(m));
    }

    method AddDeclaredFieldRef(f: FieldRef)
      modifies this
      ensures root == AddRef(old(root), toDot, deobfuscator, DECLARED, FieldItem(f))
    {
      root := AddRef(root, toDot, deobfuscator, DECLARED, FieldItem(f));
    }

    /** `getClassCount()`, `getMethodCountDeclared()`, ...: the count, and the
        memo entries the query leaves behind. */
    method GetCount(k: Measure, t: Dim) returns (c: int)
      modifies this
      ensures c == Count(old(root), k, t) && root == Fill(old(root), k, t)
    {
      c := Count(root, k, t);
      root := Fill(root, k, t);
    }

    /** `print(out, format, opts)`: the text renderers append their text for the
        tree as it stands to the writer; for JSON the writer is left alone and
        the document the JSON writer is driven with is answered instead. */
    method Print(w: TextWriter, format: OutputFormat, opts: PrintOptions) returns (json: Option<Json>)
      modifies w
      ensures format == JSON ==> json == PrintJson(root, opts) && w.out == old(w.out)
      ensures format != JSON ==> json == None && old(w.out) <= w.out
      ensures format != JSON ==> TreePrinting.Print(root, format, opts) == Text(w.out[|old(w.out)|..])
    {
      json := None;
      match format
      case LIST => w.PrintPackageList(root, opts);
      case TREE => w.PrintTree(root, opts);
      case JSON => json := PrintJson(root, opts);
      case YAML => w.PrintYaml(root, opts);
      assert format != JSON ==> w.out[..|old(w.out)|] == old(w.out);
    }
  }
}

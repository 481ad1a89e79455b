/**
 * `MethodRef` and `FieldRef`: the references the package tree counts.  A method
 * reference is a declaring-class descriptor, a name, the parameter type
 * descriptors and the return type descriptor.
 */
module MethodRefs {
  import opened JavaLang

  datatype MethodRef = MethodRef(declaredClass: string, methodName: string, parameterTypes: seq<string>, returnType: string)

  /** `FieldRef`: a plain record; its declaring-class accessor is `declaredClass`. */
  datatype FieldRef = FieldRef(declaredClass: string, fieldName: string, fieldType: string)

  /** `getDeclaredClassName`: the declaring class exactly as stored. */
  function DeclaredClassName(m: MethodRef): (c: string)
    ensures c == m.declaredClass
  {
    m.declaredClass
  }

  /* ---------------------------------------------------------------------
   * descriptor
   * --------------------------------------------------------------------- */

  /** The strings one after another. */
  function Concat(parts: seq<string>): string {
    if parts == [] then "" else Concat(parts[..|parts| - 1]) + parts[|parts| - 1]
  }

  /** The method descriptor: "(" + the parameter types in order + ")" + the return type. */
  function DescriptorOf(m: MethodRef): string {
    "(" + Concat(m.parameterTypes) + ")" + m.returnType
  }

  /** `descriptor()`: appends into a builder, one parameter type at a time. */
  method Descriptor(m: MethodRef) returns (d: string)
    ensures d == DescriptorOf(m)
  {
    var builder := "(";
    var types := m.parameterTypes;
    for i := 0 to |types|
      invariant builder == "(" + Concat(types[..i])
    {
      assert types[..i + 1][..i] == types[..i];
      builder := builder + types[i];
    }
    assert types[..|types|] == types;
    builder := builder + ")";
    builder := builder + m.returnType;
    return builder;
  }

  /** A character occurs in the concatenation exactly when it occurs in a part. */
  lemma {:induction false} ConcatContains(parts: seq<string>, c: char)
    ensures c in Concat(parts) <==> exists i | 0 <= i < |parts| :: c in parts[i]
    decreases |parts|
  {
    if parts != [] {
      var n := |parts| - 1;
      ConcatContains(parts[..n], c);
      assert Concat(parts) == Concat(parts[..n]) + parts[n];
      if c in Concat(parts[..n]) {
        var i :| 0 <= i < n && c in parts[..n][i];
        assert c in parts[i];
      }
      if exists i | 0 <= i < |parts| :: c in parts[i] {
        var i :| 0 <= i < |parts| && c in parts[i];
        if i < n {
          assert c in parts[..n][i];
        }
      }
    }
  }

  /* ---------------------------------------------------------------------
   * equals and hashCode
   * --------------------------------------------------------------------- */

  /** `equals`: the declaring class, the name and the return type agree, and the
      parameter arrays have the same contents (`contentEquals`). */
  function RefEquals(a: MethodRef, b: MethodRef): (r: bool)
    ensures r <==> a == b
    ensures r <==>
      && a.declaredClass == b.declaredClass && a.methodName == b.methodName
      && |a.parameterTypes| == |b.parameterTypes|
      && (forall i | 0 <= i < |a.parameterTypes| :: a.parameterTypes[i] == b.parameterTypes[i])
      && a.returnType == b.returnType
  {
    if a.declaredClass != b.declaredClass then false
    else if a.methodName != b.methodName then false
    else if a.parameterTypes != b.parameterTypes then false
    else if a.returnType != b.returnType then false
    else true
  }

  /** One step of `hashCode`: `31 * result + component`, as an `Int`. */
  function HashStep(h: int, x: int): int32 {
    Wrap32(31 * h + x)
  }

  /** The value `hashCode` ends with. */
  function HashOf(m: MethodRef): int32 {
    var h1 := StringHash(m.declaredClass);
    var h2 := HashStep(h1, StringHash(m.methodName));
    var h3 := HashStep(h2, ArrayHash(m.parameterTypes));
    HashStep(h3, StringHash(m.returnType))
  }

  /** `hashCode`: `result = 31 * result + component`, component by component. */
  method HashCode(m: MethodRef) returns (h: int32)
    ensures h == HashOf(m)
  {
    var result := StringHash(m.declaredClass);
    result := HashStep(result, StringHash(m.methodName));
    result := HashStep(result, ArrayHash(m.parameterTypes));
    result := HashStep(result, StringHash(m.returnType));
    return result;
  }

  /** Three wrapped steps of `31 * r + x` give the wrapped polynomial. */
  lemma ThreeSteps(a: int, b: int, c: int, d: int)
    ensures HashStep(HashStep(HashStep(a, b), c), d) == Wrap32(29791 * a + 961 * b + 31 * c + d)
  {
    var h2: int := HashStep(a, b);
    var q2 := Wrap32Offset(31 * a + b);
    var h3: int := HashStep(h2, c);
    var q3 := Wrap32Offset(31 * h2 + c);
    Wrap32Shift(31 * h3 + d, 29791 * a + 961 * b + 31 * c + d, 961 * q2 + 31 * q3);
  }

  /** The step-by-step hash is the 32-bit residue of the polynomial in 31 over the
      four component hashes. */
  lemma HashIsPolynomial(m: MethodRef)
    ensures HashOf(m) == Wrap32(29791 * StringHash(m.declaredClass) + 961 * StringHash(m.methodName)
                                + 31 * ArrayHash(m.parameterTypes) + StringHash(m.returnType))
  {
    var a: int, b: int, c: int, d: int := StringHash(m.declaredClass), StringHash(m.methodName), ArrayHash(m.parameterTypes), StringHash(m.returnType);
    ThreeSteps(a, b, c, d);
  }

  /** Equal references hash alike: the hash depends on the compared components only. */
  lemma EqualRefsHashAlike(a: MethodRef, b: MethodRef)
    requires RefEquals(a, b)
    ensures HashOf(a) == HashOf(b)
  {
  }
}

/**
 * The string helpers of the jar/dex source extraction: splitting a javassist
 * signature into parameter and return descriptors, the declaring-class
 * descriptor, the order of the method references extracted from a class, the
 * archive entry-name patterns, and the name split of a temporary-file pattern.
 */
module SourceFilesModel {
  import opened Wrappers
  import opened JavaStrings
  import opened MethodRefs

  /* ---------------------------------------------------------------------
   * Signatures
   * --------------------------------------------------------------------- */

  /** `parseBehaviorParameters`: the text between the first '(' and the first ')',
      split on ';'. */
  function ParseBehaviorParameters(signature: string): Result<seq<string>, StringFailure> {
    var startIdx := IndexOf(signature, '(');
    var endIdx := IndexOf(signature, ')');
    var parameters :- Substring(signature, startIdx + 1, endIdx);
    Success(SplitOn(parameters, ';'))
  }

  /** `substring` throws exactly when there is no ')' or it comes before the
      first '('; otherwise the pieces are those of the text strictly between. */
  lemma ParseBehaviorParametersShape(signature: string)
    ensures var start, end := IndexOf(signature, '('), IndexOf(signature, ')');
      && (ParseBehaviorParameters(signature).Success? <==> end != -1 && start < end)
      && (ParseBehaviorParameters(signature).Success? ==>
            ParseBehaviorParameters(signature).value == SplitOn(signature[start + 1..end], ';'))
  {
  }

  /** `parseMethodReturnType`: everything after the first ')' (indexOf gives -1
      without one, and `substring(0)` is the whole signature). */
  function ParseMethodReturnType(signature: string): string {
    var idx := IndexOf(signature, ')');
    signature[idx + 1..]
  }

  /** The return type is what follows the first ')', or the whole signature. */
  lemma ParseMethodReturnTypeShape(signature: string)
    ensures ')' in signature ==> exists k | 0 <= k < |signature| ::
      signature == signature[..k + 1] + ParseMethodReturnType(signature) && ')' !in signature[..k] && signature[k] == ')'
    ensures ')' !in signature ==> ParseMethodReturnType(signature) == signature
  {
    var idx := IndexOf(signature, ')');
    assert ')' in signature ==> signature == signature[..idx + 1] + signature[idx + 1..];
  }

  /** The return type is recovered from a descriptor whose parameter types hold
      no ')'. */
  lemma ReturnTypeOfDescriptor(m: MethodRef)
    requires forall i | 0 <= i < |m.parameterTypes| :: ')' !in m.parameterTypes[i]
    ensures ParseMethodReturnType(DescriptorOf(m)) == m.returnType
  {
    var d := DescriptorOf(m);
    var c := Concat(m.parameterTypes);
    ConcatContains(m.parameterTypes, ')');
    DescriptorCloseParen(m);
    assert d[|c| + 2..] == m.returnType;
  }

  /** In such a descriptor the first ')' follows the concatenated parameters, and
      the first '(' is the opening one. */
  lemma DescriptorCloseParen(m: MethodRef)
    requires ')' !in Concat(m.parameterTypes)
    ensures IndexOf(DescriptorOf(m), ')') == |Concat(m.parameterTypes)| + 1
    ensures IndexOf(DescriptorOf(m), '(') == 0
    ensures DescriptorOf(m)[1..|Concat(m.parameterTypes)| + 1] == Concat(m.parameterTypes)
  {
    var d := DescriptorOf(m);
    var c := Concat(m.parameterTypes);
    var e := |c| + 1;
    assert d[e] == ')';
    assert d[..e] == "(" + c;
    assert ')' !in d[..e];
    IndexOfIs(d, ')', e);
    IndexOfIs(d, '(', 0);
  }

  /** IndexOf finds the first occurrence. */
  lemma IndexOfIs(s: string, c: char, k: nat)
    requires k < |s| && s[k] == c && c !in s[..k]
    ensures IndexOf(s, c) == k
  {
  }

  /** The parameters parsed from a descriptor are the concatenated parameter
      types split on ';' -- so the ';' that ends each class descriptor is lost. */
  lemma ParametersOfDescriptor(m: MethodRef)
    requires forall i | 0 <= i < |m.parameterTypes| :: ')' !in m.parameterTypes[i]
    ensures ParseBehaviorParameters(DescriptorOf(m)) == Success(SplitOn(Concat(m.parameterTypes), ';'))
  {
    ConcatContains(m.parameterTypes, ')');
    DescriptorCloseParen(m);
  }

  /** "()V" gives [""]: no parameters still give one empty piece. */
  lemma NoParameterExample()
    ensures ParseBehaviorParameters("()V") == Success([""])
  {
    assert IndexOf("()V", ')') == 1 && "()V"[1..1] == "";
  }

  /** Parameter texts free of ';', '(' and ')' written between parentheses are
      recovered exactly. */
  lemma ParseOfJoin(parts: seq<string>, rest: string)
    requires |parts| >= 1
    requires forall i | 0 <= i < |parts| :: ';' !in parts[i] && '(' !in parts[i] && ')' !in parts[i]
    ensures ParseBehaviorParameters("(" + JoinWith(parts, ';') + ")" + rest) == Success(parts)
  {
    var inner := JoinWith(parts, ';');
    var sig := "(" + inner + ")" + rest;
    JoinWithFree(parts, ';', ')');
    assert sig[..|inner| + 1] == "(" + inner;
    IndexOfIs(sig, '(', 0);
    IndexOfIs(sig, ')', |inner| + 1);
    ParseBehaviorParametersShape(sig);
    assert sig[1..|inner| + 1] == inner;
    SplitOfJoin(parts, ';');
  }

  /** "(Ljava/lang/String;I)V" gives ["Ljava/lang/String", "I"]. */
  lemma StringIntExample()
    ensures ParseBehaviorParameters("(Ljava/lang/String;I)V") == Success(["Ljava/lang/String", "I"])
  {
    var parts := ["Ljava/lang/String", "I"];
    assert JoinWith(parts, ';') == "Ljava/lang/String;I";
    ParseOfJoin(parts, "V");
    StringIntSignature();
  }

  /** The signature of that example, assembled from its parameter text. */
  lemma StringIntSignature()
    ensures "(" + "Ljava/lang/String;I" + ")" + "V" == "(Ljava/lang/String;I)V"
  {
  }

  /** A trailing ';' gives a trailing "". */
  lemma TrailingSemicolonExample()
    ensures ParseBehaviorParameters("(I;)V") == Success(["I", ""])
  {
    var parts := ["I", ""];
    assert JoinWith(parts, ';') == "I;";
    ParseOfJoin(parts, "V");
    assert "(" + JoinWith(parts, ';') + ")" + "V" == "(I;)V";
  }

  /** Without ')' or with ')' before '(' the substring throws. */
  lemma MalformedExamples()
    ensures ParseBehaviorParameters("(IV") == Failure(StringIndexOutOfBounds)
    ensures ParseBehaviorParameters(")(") == Failure(StringIndexOutOfBounds)
  {
    assert IndexOf(")(", '(') == 1 && IndexOf(")(", ')') == 0;
  }

  /* ---------------------------------------------------------------------
   * extractMethodRefs / extractFieldRefs
   * --------------------------------------------------------------------- */

  /** What is read from a javassist `CtClass`: its dotted name, simple name,
      whether it has a class initializer, the signatures of its declared
      constructors, and the (name, signature) of its declared methods and the
      (name, descriptor) of its declared fields, in declaration order. */
  datatype ClassInfo = ClassInfo(
    name: string,
    simpleName: string,
    hasClassInitializer: bool,
    constructorSignatures: seq<string>,
    methods: seq<(string, string)>,
    fields: seq<(string, string)>)

  /** "L" + the class name with '.' replaced by '/' + ";". */
  function DeclaringClassDescriptor(className: string): (r: string)
    ensures |r| == |className| + 2 && r[0] == 'L' && r[|r| - 1] == ';'
    ensures '.' !in r
    ensures r[1..|r| - 1] == ReplaceChar(className, '.', '/')
  {
    "L" + ReplaceChar(className, '.', '/') + ";"
  }

  /** A name without '/' is recovered from its descriptor. */
  lemma DeclaringClassRoundTrip(className: string)
    requires '/' !in className
    ensures var d := DeclaringClassDescriptor(className); ReplaceChar(d[1..|d| - 1], '/', '.') == className
  {
    var d := DeclaringClassDescriptor(className);
    var back := ReplaceChar(d[1..|d| - 1], '/', '.');
    forall i | 0 <= i < |className| ensures back[i] == className[i] {
      assert className[i] != '/';
    }
  }

  /** The "<init>" reference of one constructor. */
  function InitRef(declaringClass: string, signature: string): Result<MethodRef, StringFailure> {
    var params :- ParseBehaviorParameters(signature);
    Success(MethodRef(declaringClass, "<init>", params, "V"))
  }

  /** The reference of one declared method, from its name and signature. */
  function DeclaredRef(declaringClass: string, name: string, signature: string): Result<MethodRef, StringFailure> {
    var params :- ParseBehaviorParameters(signature);
    Success(MethodRef(declaringClass, name, params, ParseMethodReturnType(signature)))
  }

  /** The "<init>" references of the constructors, in order; the first signature
      that does not parse fails them all. */
  function ConstructorRefs(declaringClass: string, signatures: seq<string>): (r: Result<seq<MethodRef>, StringFailure>)
    ensures r.Success? <==> forall i | 0 <= i < |signatures| :: InitRef(declaringClass, signatures[i]).Success?
    ensures r.Success? ==> (|r.value| == |signatures| &&
      forall i | 0 <= i < |signatures| :: r.value[i] == InitRef(declaringClass, signatures[i]).value)
  {
    MapAll((s: string) => InitRef(declaringClass, s), signatures)
  }

  /** The references of the declared methods, in order. */
  function DeclaredMethodRefs(declaringClass: string, methods: seq<(string, string)>): (r: Result<seq<MethodRef>, StringFailure>)
    ensures r.Success? <==> forall i | 0 <= i < |methods| :: DeclaredRef(declaringClass, methods[i].0, methods[i].1).Success?
    ensures r.Success? ==> (|r.value| == |methods| &&
      forall i | 0 <= i < |methods| :: r.value[i] == DeclaredRef(declaringClass, methods[i].0, methods[i].1).value)
  {
    MapAll((m: (string, string)) => DeclaredRef(declaringClass, m.0, m.1), methods)
  }

  /** The "<clinit>" reference, present only with a class initializer. */
  function InitializerRefs(declaringClass: string, c: ClassInfo): seq<MethodRef> {
    if c.hasClassInitializer then [MethodRef(declaringClass, "<clinit>", [], "V")] else []
  }

  /** What `extractMethodRefs` returns: the initializer, the constructors, the
      methods. */
  function MethodRefsOf(c: ClassInfo): Result<seq<MethodRef>, StringFailure> {
    MethodRefsIn(DeclaringClassDescriptor(c.name), c)
  }

  /** The same, with the declaring-class descriptor given. */
  function MethodRefsIn(declaringClass: string, c: ClassInfo): Result<seq<MethodRef>, StringFailure> {
    var inits :- ConstructorRefs(declaringClass, c.constructorSignatures);
    var methods :- DeclaredMethodRefs(declaringClass, c.methods);
    Success(InitializerRefs(declaringClass, c) + inits + methods)
  }

  /** `extractMethodRefs`: appends to a list the initializer, then the
      constructors one at a time, then the methods one at a time. */
  method ExtractMethodRefs(c: ClassInfo) returns (r: Result<seq<MethodRef>, StringFailure>)
    ensures r == MethodRefsOf(c)
  {
    var declaringClass := DeclaringClassDescriptor(c.name);
    var methodRefs := InitializerRefs(declaringClass, c);
    r := AppendConstructorRefs(declaringClass, methodRefs, c.constructorSignatures);
    if r.Failure? {
      return;
    }
    r := AppendDeclaredRefs(declaringClass, r.value, c.methods);
  }

  /** The constructor loop of `extractMethodRefs`, appending to `acc`. */
  method AppendConstructorRefs(declaringClass: string, acc: seq<MethodRef>, ctors: seq<string>)
    returns (r: Result<seq<MethodRef>, StringFailure>)
    ensures ConstructorRefs(declaringClass, ctors).Success? ==> r == Success(acc + ConstructorRefs(declaringClass, ctors).value)
    ensures ConstructorRefs(declaringClass, ctors).Failure? ==> r == ConstructorRefs(declaringClass, ctors)
  {
    var methodRefs := acc;
    for i := 0 to |ctors|
      invariant ConstructorRefs(declaringClass, ctors[..i]).Success?
      invariant methodRefs == acc + ConstructorRefs(declaringClass, ctors[..i]).value
    {
      var params := ParseBehaviorParameters(ctors[i]);
      if params.Failure? {
        ConstructorRefsFailure(declaringClass, ctors, i);
        return Failure(params.error);
      }
      var ref := MethodRef(declaringClass, "<init>", params.value, "V");
      ConstructorRefsStep(declaringClass, acc, ctors, i, methodRefs);
      methodRefs := methodRefs + [ref];
    }
    assert ctors[..|ctors|] == ctors;
    return Success(methodRefs);
  }

  /** The declared-method loop of `extractMethodRefs`, appending to `acc`. */
  method AppendDeclaredRefs(declaringClass: string, acc: seq<MethodRef>, ms: seq<(string, string)>)
    returns (r: Result<seq<MethodRef>, StringFailure>)
    ensures DeclaredMethodRefs(declaringClass, ms).Success? ==> r == Success(acc + DeclaredMethodRefs(declaringClass, ms).value)
    ensures DeclaredMethodRefs(declaringClass, ms).Failure? ==> r == DeclaredMethodRefs(declaringClass, ms)
  {
    var methodRefs := acc;
    for i := 0 to |ms|
      invariant DeclaredMethodRefs(declaringClass, ms[..i]).Success?
      invariant methodRefs == acc + DeclaredMethodRefs(declaringClass, ms[..i]).value
    {
      var params := ParseBehaviorParameters(ms[i].1);
      if params.Failure? {
        DeclaredMethodRefsFailure(declaringClass, ms, i);
        return Failure(params.error);
      }
      var returnType := ParseMethodReturnType(ms[i].1);
      var ref := MethodRef(declaringClass, ms[i].0, params.value, returnType);
      DeclaredRefsStep(declaringClass, acc, ms, i, methodRefs);
      methodRefs := methodRefs + [ref];
    }
    assert ms[..|ms|] == ms;
    return Success(methodRefs);
  }

  /** The invariant of `AppendConstructorRefs` carried over one constructor that
      parses. */
  lemma ConstructorRefsStep(d: string, acc: seq<MethodRef>, ctors: seq<string>, i: nat, methodRefs: seq<MethodRef>)
    requires i < |ctors| && ParseBehaviorParameters(ctors[i]).Success?
    requires ConstructorRefs(d, ctors[..i]).Success?
    requires methodRefs == acc + ConstructorRefs(d, ctors[..i]).value
    ensures ConstructorRefs(d, ctors[..i + 1]).Success?
    ensures methodRefs + [MethodRef(d, "<init>", ParseBehaviorParameters(ctors[i]).value, "V")]
      == acc + ConstructorRefs(d, ctors[..i + 1]).value
  {
    InitRefIs(d, ctors[i]);
    ConstructorRefsSnoc(d, ctors, i);
  }

  /** The invariant of `AppendDeclaredRefs` carried over one method that parses. */
  lemma DeclaredRefsStep(d: string, acc: seq<MethodRef>, ms: seq<(string, string)>, i: nat, methodRefs: seq<MethodRef>)
    requires i < |ms| && ParseBehaviorParameters(ms[i].1).Success?
    requires DeclaredMethodRefs(d, ms[..i]).Success?
    requires methodRefs == acc + DeclaredMethodRefs(d, ms[..i]).value
    ensures DeclaredMethodRefs(d, ms[..i + 1]).Success?
    ensures methodRefs + [MethodRef(d, ms[i].0, ParseBehaviorParameters(ms[i].1).value, ParseMethodReturnType(ms[i].1))]
      == acc + DeclaredMethodRefs(d, ms[..i + 1]).value
  {
    DeclaredRefIs(d, ms[i].0, ms[i].1);
    DeclaredMethodRefsSnoc(d, ms, i);
  }

  /** The "<init>" reference of a constructor whose signature parses. */
  lemma InitRefIs(d: string, signature: string)
    requires ParseBehaviorParameters(signature).Success?
    ensures InitRef(d, signature) == Success(MethodRef(d, "<init>", ParseBehaviorParameters(signature).value, "V"))
  {
  }

  /** The reference of a declared method whose signature parses. */
  lemma DeclaredRefIs(d: string, name: string, signature: string)
    requires ParseBehaviorParameters(signature).Success?
    ensures DeclaredRef(d, name, signature)
      == Success(MethodRef(d, name, ParseBehaviorParameters(signature).value, ParseMethodReturnType(signature)))
  {
  }

  /** One more constructor that parses extends the references by one. */
  lemma ConstructorRefsSnoc(d: string, signatures: seq<string>, i: nat)
    requires i < |signatures| && ConstructorRefs(d, signatures[..i]).Success?
    requires InitRef(d, signatures[i]).Success?
    ensures ConstructorRefs(d, signatures[..i + 1])
      == Success(ConstructorRefs(d, signatures[..i]).value + [InitRef(d, signatures[i]).value])
  {
    var front, longer := signatures[..i], signatures[..i + 1];
    forall j | 0 <= j <= i ensures InitRef(d, longer[j]).Success? {
      if j < i {
        assert longer[j] == front[j];
      }
    }
    var b := ConstructorRefs(d, front).value + [InitRef(d, signatures[i]).value];
    var r := ConstructorRefs(d, longer);
    forall j | 0 <= j <= i ensures r.value[j] == b[j] {
      if j < i {
        assert longer[j] == front[j];
      }
    }
    assert r.value == b;
  }

  /** One more method that parses extends the references by one. */
  lemma DeclaredMethodRefsSnoc(d: string, methods: seq<(string, string)>, i: nat)
    requires i < |methods| && DeclaredMethodRefs(d, methods[..i]).Success?
    requires DeclaredRef(d, methods[i].0, methods[i].1).Success?
    ensures DeclaredMethodRefs(d, methods[..i + 1])
      == Success(DeclaredMethodRefs(d, methods[..i]).value + [DeclaredRef(d, methods[i].0, methods[i].1).value])
  {
    var front, longer := methods[..i], methods[..i + 1];
    forall j | 0 <= j <= i ensures DeclaredRef(d, longer[j].0, longer[j].1).Success? {
      if j < i {
        assert longer[j] == front[j];
      }
    }
    var b := DeclaredMethodRefs(d, front).value + [DeclaredRef(d, methods[i].0, methods[i].1).value];
    var r := DeclaredMethodRefs(d, longer);
    forall j | 0 <= j <= i ensures r.value[j] == b[j] {
      if j < i {
        assert longer[j] == front[j];
      }
    }
    assert r.value == b;
  }

  /** A constructor whose signature does not parse fails the whole list. */
  lemma ConstructorRefsFailure(declaringClass: string, signatures: seq<string>, i: nat)
    requires i < |signatures| && ParseBehaviorParameters(signatures[i]).Failure?
    ensures ConstructorRefs(declaringClass, signatures) == Failure(StringIndexOutOfBounds)
  {
    assert InitRef(declaringClass, signatures[i]).Failure?;
    var r := ConstructorRefs(declaringClass, signatures);
    match r.error {
      case StringIndexOutOfBounds => assert r == Failure(StringIndexOutOfBounds);
    }
  }

  /** A method whose signature does not parse fails the whole list. */
  lemma DeclaredMethodRefsFailure(declaringClass: string, methods: seq<(string, string)>, i: nat)
    requires i < |methods| && ParseBehaviorParameters(methods[i].1).Failure?
    ensures DeclaredMethodRefs(declaringClass, methods) == Failure(StringIndexOutOfBounds)
  {
    assert DeclaredRef(declaringClass, methods[i].0, methods[i].1).Failure?;
    var r := DeclaredMethodRefs(declaringClass, methods);
    match r.error {
      case StringIndexOutOfBounds => assert r == Failure(StringIndexOutOfBounds);
    }
  }

  /** The order of the extracted references: "<clinit>" first when present, then
      one "<init>" per constructor returning "V", then the declared methods in
      their order, all declared in the class's descriptor. */
  lemma MethodRefsOrder(c: ClassInfo, r: seq<MethodRef>)
    requires MethodRefsOf(c) == Success(r)
    ensures var d, k := DeclaringClassDescriptor(c.name), if c.hasClassInitializer then 1 else 0;
      && |r| == k + |c.constructorSignatures| + |c.methods|
      && (c.hasClassInitializer ==> r[0] == MethodRef(d, "<clinit>", [], "V"))
      && (forall j | k <= j < k + |c.constructorSignatures| :: r[j].methodName == "<init>" && r[j].returnType == "V")
      && (forall i | 0 <= i < |c.methods| :: r[k + |c.constructorSignatures| + i].methodName == c.methods[i].0)
      && (forall j | 0 <= j < |r| :: r[j].declaredClass == d)
  {
    MethodRefsInOrder(DeclaringClassDescriptor(c.name), c, r);
  }

  lemma MethodRefsInOrder(d: string, c: ClassInfo, r: seq<MethodRef>)
    requires MethodRefsIn(d, c) == Success(r)
    ensures var k := if c.hasClassInitializer then 1 else 0;
      && |r| == k + |c.constructorSignatures| + |c.methods|
      && (c.hasClassInitializer ==> r[0] == MethodRef(d, "<clinit>", [], "V"))
      && (forall j | k <= j < k + |c.constructorSignatures| :: r[j].methodName == "<init>" && r[j].returnType == "V")
      && (forall i | 0 <= i < |c.methods| :: r[k + |c.constructorSignatures| + i].methodName == c.methods[i].0)
      && (forall j | 0 <= j < |r| :: r[j].declaredClass == d)
  {
    MethodRefsInSplit(d, c, r);
    var pre := InitializerRefs(d, c);
    var inits := ConstructorRefs(d, c.constructorSignatures).value;
    var ms := DeclaredMethodRefs(d, c.methods).value;
    ConstructorRefsShape(d, c.constructorSignatures);
    DeclaredMethodRefsShape(d, c.methods);
    SectionFacts(d, pre, inits, ms, c.methods);
  }

  /** A successful extraction is the three sections one after another. */
  lemma MethodRefsInSplit(d: string, c: ClassInfo, r: seq<MethodRef>)
    requires MethodRefsIn(d, c) == Success(r)
    ensures ConstructorRefs(d, c.constructorSignatures).Success? && DeclaredMethodRefs(d, c.methods).Success?
    ensures r == InitializerRefs(d, c) + ConstructorRefs(d, c.constructorSignatures).value + DeclaredMethodRefs(d, c.methods).value
  {
  }

  /** The per-section facts carried over to the concatenation. */
  lemma SectionFacts(d: string, pre: seq<MethodRef>, inits: seq<MethodRef>, ms: seq<MethodRef>, methods: seq<(string, string)>)
    requires forall i | 0 <= i < |pre| :: pre[i].declaredClass == d
    requires forall i | 0 <= i < |inits| :: inits[i].declaredClass == d && inits[i].methodName == "<init>" && inits[i].returnType == "V"
    requires |ms| == |methods| && forall i | 0 <= i < |ms| :: ms[i].declaredClass == d && ms[i].methodName == methods[i].0
    ensures var r, k, n := pre + inits + ms, |pre|, |pre| + |inits|;
      && (forall j | k <= j < n :: r[j].methodName == "<init>" && r[j].returnType == "V")
      && (forall i | 0 <= i < |methods| :: r[n + i].methodName == methods[i].0)
      && (forall j | 0 <= j < |r| :: r[j].declaredClass == d)
  {
    var front := pre + inits;
    var r := front + ms;
    forall j | |pre| <= j < |front| ensures r[j] == inits[j - |pre|] {
      assert r[j] == front[j];
    }
    forall i | 0 <= i < |ms| ensures r[|front| + i] == ms[i] {
    }
    forall j | 0 <= j < |r| ensures r[j].declaredClass == d {
      if j < |front| {
        assert r[j] == front[j];
      }
    }
  }

  lemma ConstructorRefsShape(d: string, signatures: seq<string>)
    requires ConstructorRefs(d, signatures).Success?
    ensures var r := ConstructorRefs(d, signatures).value;
      forall i | 0 <= i < |r| :: r[i].declaredClass == d && r[i].methodName == "<init>" && r[i].returnType == "V"
  {
    forall i | 0 <= i < |signatures| {
      InitRefShape(d, signatures[i]);
    }
  }

  lemma DeclaredMethodRefsShape(d: string, methods: seq<(string, string)>)
    requires DeclaredMethodRefs(d, methods).Success?
    ensures var r := DeclaredMethodRefs(d, methods).value;
      forall i | 0 <= i < |r| :: r[i].declaredClass == d && r[i].methodName == methods[i].0
  {
    forall i | 0 <= i < |methods| {
      DeclaredRefShape(d, methods[i].0, methods[i].1);
    }
  }

  lemma InitRefShape(d: string, signature: string)
    requires InitRef(d, signature).Success?
    ensures var m := InitRef(d, signature).value; m.declaredClass == d && m.methodName == "<init>" && m.returnType == "V"
  {
  }

  lemma DeclaredRefShape(d: string, name: string, signature: string)
    requires DeclaredRef(d, name, signature).Success?
    ensures var r := DeclaredRef(d, name, signature).value; r.declaredClass == d && r.methodName == name
  {
  }

  /** `extractFieldRefs`: one reference per declared field, declared in the
      class's simple name (not its descriptor), typed by the field descriptor. */
  function FieldRefsOf(c: ClassInfo): (r: seq<FieldRef>)
    ensures |r| == |c.fields|
    ensures forall i | 0 <= i < |r| :: r[i].declaredClass == c.simpleName && r[i].fieldName == c.fields[i].0 && r[i].fieldType == c.fields[i].1
  {
    seq(|c.fields|, i requires 0 <= i < |c.fields| => FieldRef(c.simpleName, c.fields[i].0, c.fields[i].1))
  }

  /* ---------------------------------------------------------------------
   * Entry-name patterns, under `matches()`
   * --------------------------------------------------------------------- */

  /** The characters the regex `.` does not match. */
  predicate IsLineTerminator(c: char) {
    c == '\n' || c == '\r' || c == '\U{0085}' || c == '\U{2028}' || c == '\U{2029}'
  }

  predicate NoLineTerminator(s: string) {
    forall i | 0 <= i < |s| :: !IsLineTerminator(s[i])
  }

  // What the group `(.*/)*` matches: empty, or any text free of line
  // terminators that ends in '/'.
  predicate DirectoryPrefix(p: string) {
    p == [] || (NoLineTerminator(p) && p[|p| - 1] == '/')
  }

  // `CLASSES_JAR`, the pattern `(.*/)*classes\.jar`.
  predicate IsClassesJar(name: string) {
    EndsWith(name, "classes.jar") && DirectoryPrefix(name[..|name| - 11])
  }

  // `CLASSES_DEX`, the pattern `(.*/)*classes.*\.dex`: some "classes" begins
  // the name or follows a '/', the name ends in ".dex" after it, and no line
  // terminator occurs anywhere.
  predicate IsClassesDex(name: string) {
    && NoLineTerminator(name)
    && exists k | 0 <= k && k + 11 <= |name| :: DexSplit(name, k)
  }

  predicate DexSplit(name: string, k: nat)
    requires k + 11 <= |name|
  {
    (k == 0 || name[k - 1] == '/') && name[k..k + 7] == "classes" && name[|name| - 4..] == ".dex"
  }

  /** The form the dex pattern describes: P + "classes" + X + ".dex". */
  predicate DexForm(name: string, p: string, x: string) {
    DirectoryPrefix(p) && NoLineTerminator(x) && name == p + "classes" + x + ".dex"
  }

  /** The jar pattern matches exactly "classes.jar" under a directory prefix. */
  lemma ClassesJarIff(name: string, p: string)
    ensures name == p + "classes.jar" && DirectoryPrefix(p) ==> IsClassesJar(name)
    ensures IsClassesJar(name) ==> name == name[..|name| - 11] + "classes.jar" && DirectoryPrefix(name[..|name| - 11])
  {
    if name == p + "classes.jar" {
      assert name[..|name| - 11] == p;
      assert name[|name| - 11..] == "classes.jar";
    }
  }

  /** Every name of the dex form is accepted ... */
  lemma ClassesDexOfForm(name: string, p: string, x: string)
    requires DexForm(name, p, x)
    ensures IsClassesDex(name)
  {
    var k := |p|;
    assert name[..k] == p;
    assert name[k..k + 7] == "classes";
    assert name[k + 7..|name| - 4] == x;
    assert name[|name| - 4..] == ".dex";
    assert DexSplit(name, k);
    forall i | 0 <= i < |name| ensures !IsLineTerminator(name[i]) {
      if i < k {
        assert name[i] == p[i];
      } else if k + 7 <= i < |name| - 4 {
        assert name[i] == x[i - k - 7];
      }
    }
  }

  /** ... and every accepted name has that form. */
  lemma ClassesDexHasForm(name: string)
    requires IsClassesDex(name)
    ensures exists k | 0 <= k && k + 11 <= |name| :: DexForm(name, name[..k], name[k + 7..|name| - 4])
  {
    var k :| 0 <= k && k + 11 <= |name| && DexSplit(name, k);
    var p, x := name[..k], name[k + 7..|name| - 4];
    assert forall i | 0 <= i < |p| :: p[i] == name[i];
    assert forall i | 0 <= i < |x| :: x[i] == name[k + 7 + i];
    assert name == p + "classes" + x + ".dex";
    assert DexForm(name, p, x);
  }

  /* ---------------------------------------------------------------------
   * makeTempFile
   * --------------------------------------------------------------------- */

  /** The prefix and suffix `makeTempFile` passes to `createTempFile`: split at the
      first '.'; `substring(0, -1)` throws when there is none. */
  function TempFileNameParts(pattern: string): (r: Result<(string, string), StringFailure>)
    ensures r.Success? <==> '.' in pattern
    ensures r.Success? ==> (r.value.0 + r.value.1 == pattern && '.' !in r.value.0
      && |r.value.1| >= 1 && r.value.1[0] == '.')
  {
    var idx := IndexOf(pattern, '.');
    var prefix :- Substring(pattern, 0, idx);
    // `substring(idx)` cannot throw once `substring(0, idx)` has not.
    var suffix := pattern[idx..];
    assert prefix + suffix == pattern;
    Success((prefix, suffix))
  }

  /** The split is the only one with a dot-free prefix and a suffix starting
      with '.'. */
  lemma TempFileNamePartsUnique(pattern: string, prefix: string, suffix: string)
    requires prefix + suffix == pattern && '.' !in prefix && |suffix| >= 1 && suffix[0] == '.'
    ensures TempFileNameParts(pattern) == Success((prefix, suffix))
  {
    assert pattern[|prefix|] == '.';
    assert pattern[..|prefix|] == prefix;
    IndexOfIs(pattern, '.', |prefix|);
    assert pattern[|prefix|..] == suffix;
  }
}

/**
 * `ClassRef`: a class name with the field and method references collected for it.
 * The two lists only grow, by appending; nothing is deduplicated.
 */
module ClassRefs {
  import opened MethodRefs

  class ClassRef {
    const name: string
    var fields: seq<FieldRef>
    var methods: seq<MethodRef>

    /** A `ClassRef` built with only a name: both lists start empty. */
    constructor (name: string)
      ensures this.name == name && fields == [] && methods == []
    {
      this.name := name;
      fields := [];
      methods := [];
    }

    /** The data-class constructor with every component given. */
    constructor WithRefs(name: string, fields: seq<FieldRef>, methods: seq<MethodRef>)
      ensures this.name == name && this.fields == fields && this.methods == methods
    {
      this.name := name;
      this.fields := fields;
      this.methods := methods;
    }

    /** `addField`: appends at the end; the methods are untouched. */
    method AddField(f: FieldRef)
      modifies this`fields
      ensures fields == old(fields) + [f]
      ensures |fields| == |old(fields)| + 1 && fields[|fields| - 1] == f
    {
      fields := fields + [f];
    }

    /** `addMethod`: appends at the end; the fields are untouched. */
    method AddMethod(m: MethodRef)
      modifies this`methods
      ensures methods == old(methods) + [m]
      ensures |methods| == |old(methods)| + 1 && methods[|methods| - 1] == m
    {
      methods := methods + [m];
    }

    /** `fieldArray`: a new array holding the fields in insertion order. */
    method FieldArray() returns (a: array<FieldRef>)
      ensures fresh(a) && a[..] == fields
    {
      a := new FieldRef[|fields|](i requires 0 <= i < |fields| reads this => fields[i]);
    }

    /** `methodArray`: a new array holding the methods in insertion order. */
    method MethodArray() returns (a: array<MethodRef>)
      ensures fresh(a) && a[..] == methods
    {
      a := new MethodRef[|methods|](i requires 0 <= i < |methods| reads this => methods[i]);
    }
  }

  /** Adding the same method twice keeps both copies: the list grows by two. */
  method AddMethodTwice(c: ClassRef, m: MethodRef)
    modifies c`methods
    ensures c.methods == old(c.methods) + [m, m]
    ensures |c.methods| == |old(c.methods)| + 2
  {
    c.AddMethod(m);
    c.AddMethod(m);
  }
}

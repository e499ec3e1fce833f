/**
 * The loaded module as the patch engine sees it: its attribute flags and its
 * types, each with fields, properties and methods. Method bodies are objects
 * whose instruction lists are patched in place; everything else is a value.
 */
module Metadata {
  import opened Cil
  import opened Lookup

  datatype FieldDef = FieldDef(name: string, fieldType: string)

  datatype MethodDef = MethodDef(name: string, isConstructor: bool, body: MethodBody)

  datatype PropertyDef = PropertyDef(
    name: string,
    propertyType: string,
    getter: Option<MethodDef>,
    setter: Option<MethodDef>)

  /** A type definition; `baseType` is the full name of its base type, if any. */
  datatype TypeDef = TypeDef(
    ns: string,
    name: string,
    baseType: Option<string>,
    fields: seq<FieldDef>,
    properties: seq<PropertyDef>,
    methods: seq<MethodDef>)
  {
    function FullName(): string
    {
      if ns == "" then name else ns + "." + name
    }
  }

  function BodyOf(md: MethodDef): MethodBody
  {
    md.body
  }

  /** The method bodies that a type owns. */
  function Bodies(t: TypeDef): set<MethodBody>
  {
    set md | md in t.methods :: md.body
  }

  /** The method bodies of every type of a module. */
  function ModuleBodies(types: seq<TypeDef>): set<MethodBody>
  {
    set t, md | t in types && md in t.methods :: md.body
  }

  /** The instruction list each body of `bodies` holds, keyed by the body. */
  function Snapshot(bodies: set<MethodBody>): map<MethodBody, seq<Instruction>>
    reads bodies
  {
    map b | b in bodies :: b.instructions
  }

  /** Bodies whose fields did not change still hold the same contents. */
  twostate lemma SnapshotUnchanged(bodies: set<MethodBody>)
    requires unchanged(bodies)
    ensures Snapshot(bodies) == old(Snapshot(bodies))
  {
  }

  /**
   * What the metadata guarantees of a type: each method has a body of its
   * own, and a property's accessors are ordinary (non-constructor) methods
   * of the same type.
   */
  ghost predicate WellFormedType(t: TypeDef)
  {
    && DistinctKeys(t.methods, BodyOf)
    && (forall p :: p in t.properties && p.setter.Some? ==>
          p.setter.value in t.methods && !p.setter.value.isConstructor)
  }

  /** Two methods of a well-formed type that share a body are the same method. */
  lemma SameBodySameMethod(t: TypeDef, a: MethodDef, b: MethodDef)
    requires WellFormedType(t) && a in t.methods && b in t.methods
    requires a.body == b.body
    ensures a == b
  {
    var i :| 0 <= i < |t.methods| && t.methods[i] == a;
    var j :| 0 <= j < |t.methods| && t.methods[j] == b;
    assert BodyOf(t.methods[i]) == BodyOf(t.methods[j]);
  }

  /** The two `ModuleAttributes` bits the engine touches. */
  const ILOnly: bv32 := 0x1
  const ILLibrary: bv32 := 0x4

  /**
   * The attribute transform of `ModifyModuleAsILOnly`: a module marked as an
   * IL library is re-marked as IL-only; every other bit stays as it was.
   */
  function AsILOnly(attributes: bv32): (r: bv32)
    ensures attributes & ILLibrary != 0 ==>
      && r & ILLibrary == 0
      && r & ILOnly == ILOnly
      && r & !(ILLibrary | ILOnly) == attributes & !(ILLibrary | ILOnly)
    ensures attributes & ILLibrary == 0 ==> r == attributes
  {
    if attributes & ILLibrary != 0 then (attributes ^ ILLibrary) | ILOnly else attributes
  }

  /** Applying the transform twice is the same as applying it once. */
  lemma AsILOnlyIdempotent(attributes: bv32)
    ensures AsILOnly(AsILOnly(attributes)) == AsILOnly(attributes)
    ensures AsILOnly(attributes) & ILLibrary == 0
  {
  }

  /** The module being patched. Only its attribute word is ever reassigned. */
  class ModuleDef {
    var attributes: bv32
    const types: seq<TypeDef>

    constructor (attributes: bv32, types: seq<TypeDef>)
      ensures this.attributes == attributes && this.types == types
    {
      this.attributes := attributes;
      this.types := types;
    }

    method ModifyModuleAsILOnly()
      modifies this
      ensures attributes == AsILOnly(old(attributes))
    {
      if attributes & ILLibrary != 0 {
        attributes := (attributes ^ ILLibrary) | ILOnly;
      }
    }
  }
}

/**
 * `AddInternalVisibility`: locate the compilation-options type, its flag
 * field and the import-options property of its base type by their declared
 * type names, then patch every constructor and the flag property's setter.
 */
module InternalVisibility {
  import opened Cil
  import opened Lookup
  import opened Patcher
  import opened Metadata

  const TargetNamespace := "Microsoft.CodeAnalysis.CSharp"
  const TargetTypeName := "CSharpCompilationOptions"
  const FlagTypeName := "BinderFlags"
  const ImportOptionsTypeName := "MetadataImportOptions"

  /** The ways the engine's lookups and patches can fail. */
  datatype PatchError =
    | TargetTypeNotFound
    | MemberNotFound(what: string)
    | AmbiguousMember(what: string)
    | BaseTypeUnresolved
    | AccessorMissing(what: string)
    | MalformedMethodBody

  datatype Result<T> = Success(value: T) | Failure(error: PatchError)

  datatype Outcome = Pass | Fail(error: PatchError)

  /** What resolution produces: the type to patch and the members its patch refers to. */
  datatype PatchTarget = PatchTarget(
    target: TypeDef,
    flagField: MemberRef,
    importOptionsSetter: MemberRef,
    importOptionsGetter: MemberRef)

  predicate IsTargetType(t: TypeDef)
  {
    t.ns == TargetNamespace && t.name == TargetTypeName
  }

  predicate IsFlagField(f: FieldDef)
  {
    f.fieldType == FlagTypeName
  }

  predicate IsImportOptionsProperty(p: PropertyDef)
  {
    p.propertyType == ImportOptionsTypeName
  }

  predicate IsFlagProperty(p: PropertyDef)
  {
    p.propertyType == FlagTypeName
  }

  predicate IsConstructor(md: MethodDef)
  {
    md.isConstructor
  }

  /** The unique flag field of `t`, or why there is none. */
  function FlagField(t: TypeDef): (r: Result<FieldDef>)
    ensures r.Success? <==> Single(t.fields, IsFlagField).Found?
    ensures r == Failure(MemberNotFound("flag field")) <==>
            forall i :: 0 <= i < |t.fields| ==> t.fields[i].fieldType != FlagTypeName
    ensures r == Failure(AmbiguousMember("flag field")) <==> ManyMatch(t.fields, IsFlagField)
    ensures r.Success? ==> Single(t.fields, IsFlagField) == Found(r.value)
  {
    match Single(t.fields, IsFlagField)
    case Found(f) => Success(f)
    case NotFound => Failure(MemberNotFound("flag field"))
    case Ambiguous => Failure(AmbiguousMember("flag field"))
  }

  /** The unique import-options property of `b`, or why there is none. */
  function ImportOptionsProperty(b: TypeDef): (r: Result<PropertyDef>)
    ensures r.Success? <==> Single(b.properties, IsImportOptionsProperty).Found?
    ensures r == Failure(MemberNotFound("import options property")) <==>
            forall i :: 0 <= i < |b.properties| ==> b.properties[i].propertyType != ImportOptionsTypeName
    ensures r == Failure(AmbiguousMember("import options property")) <==>
            ManyMatch(b.properties, IsImportOptionsProperty)
    ensures r.Success? ==> Single(b.properties, IsImportOptionsProperty) == Found(r.value)
  {
    match Single(b.properties, IsImportOptionsProperty)
    case Found(p) => Success(p)
    case NotFound => Failure(MemberNotFound("import options property"))
    case Ambiguous => Failure(AmbiguousMember("import options property"))
  }

  /**
   * The lookups at the head of `AddInternalVisibility`. `resolver` stands for
   * the assembly resolver: it maps a type's full name to its definition.
   */
  function Resolve(types: seq<TypeDef>, resolver: map<string, TypeDef>): (r: Result<PatchTarget>)
    ensures r == Failure(TargetTypeNotFound) <==> forall i :: 0 <= i < |types| ==> !IsTargetType(types[i])
    ensures First(types, IsTargetType).Found? ==>
      var t := First(types, IsTargetType).value;
      && (FlagField(t).Failure? ==> r == Failure(FlagField(t).error))
      && (FlagField(t).Success? && (t.baseType.None? || t.baseType.value !in resolver) ==>
            r == Failure(BaseTypeUnresolved))
    ensures r.Success? <==>
      && First(types, IsTargetType).Found?
      && var t := First(types, IsTargetType).value;
      && FlagField(t).Success?
      && t.baseType.Some? && t.baseType.value in resolver
      && var b := resolver[t.baseType.value];
      && ImportOptionsProperty(b).Success?
      && ImportOptionsProperty(b).value.setter.Some?
      && ImportOptionsProperty(b).value.getter.Some?
    ensures r.Success? ==>
      var t := r.value.target;
      && First(types, IsTargetType) == Found(t)
      && FlagField(t).Success?
      && r.value.flagField == MemberRef(t.FullName(), FlagField(t).value.name)
      && t.baseType.Some? && t.baseType.value in resolver
      && var b := resolver[t.baseType.value];
      && ImportOptionsProperty(b).Success?
      && var p := ImportOptionsProperty(b).value;
      && p.setter.Some? && p.getter.Some?
      && r.value.importOptionsSetter == MemberRef(b.FullName(), p.setter.value.name)
      && r.value.importOptionsGetter == MemberRef(b.FullName(), p.getter.value.name)
    ensures r.Failure? && First(types, IsTargetType).Found? && FlagField(First(types, IsTargetType).value).Success? ==>
      var t := First(types, IsTargetType).value;
      t.baseType.Some? && t.baseType.value in resolver ==>
        var b := resolver[t.baseType.value];
        && (ImportOptionsProperty(b).Failure? ==> r == Failure(ImportOptionsProperty(b).error))
        && (ImportOptionsProperty(b).Success? && ImportOptionsProperty(b).value.setter.None? ==>
              r == Failure(AccessorMissing("import options setter")))
        && (ImportOptionsProperty(b).Success? && ImportOptionsProperty(b).value.setter.Some? ==>
              r == Failure(AccessorMissing("import options getter")))
  {
    match First(types, IsTargetType)
    case NotFound => Failure(TargetTypeNotFound)
    // Unreachable: `First` never reports ambiguity.
    case Ambiguous => Failure(TargetTypeNotFound)
    case Found(t) =>
      match FlagField(t)
      case Failure(e) => Failure(e)
      case Success(field) =>
        if t.baseType.None? || t.baseType.value !in resolver then Failure(BaseTypeUnresolved)
        else
          var b := resolver[t.baseType.value];
          match ImportOptionsProperty(b)
          case Failure(e) => Failure(e)
          case Success(p) =>
            if p.setter.None? then Failure(AccessorMissing("import options setter"))
            else if p.getter.None? then Failure(AccessorMissing("import options getter"))
            else Success(PatchTarget(
              t,
              MemberRef(t.FullName(), field.name),
              MemberRef(b.FullName(), p.setter.value.name),
              MemberRef(b.FullName(), p.getter.value.name)))
  }

  /** A module with two flag fields is refused as ambiguous, never patched at the first one. */
  lemma TwoFlagFieldsAreAmbiguous(types: seq<TypeDef>, resolver: map<string, TypeDef>, t: TypeDef, i: nat, j: nat)
    requires First(types, IsTargetType) == Found(t)
    requires i < j < |t.fields|
    requires t.fields[i].fieldType == FlagTypeName && t.fields[j].fieldType == FlagTypeName
    ensures Resolve(types, resolver) == Failure(AmbiguousMember("flag field"))
  {
    assert ManyMatch(t.fields, IsFlagField) by {
      assert IsFlagField(t.fields[i]) && IsFlagField(t.fields[j]);
    }
  }

  /** A base type without the import-options property is refused as not found. */
  lemma MissingImportOptionsIsNotFound(types: seq<TypeDef>, resolver: map<string, TypeDef>, t: TypeDef, field: FieldDef)
    requires First(types, IsTargetType) == Found(t)
    requires FlagField(t) == Success(field)
    requires t.baseType.Some? && t.baseType.value in resolver
    requires forall p :: p in resolver[t.baseType.value].properties ==> p.propertyType != ImportOptionsTypeName
    ensures Resolve(types, resolver) == Failure(MemberNotFound("import options property"))
  {
    var b := resolver[t.baseType.value];
    assert forall i :: 0 <= i < |b.properties| ==> b.properties[i] in b.properties;
  }

  /**
   * The setter `RewriteSetter` patches: the earliest property of `t` whose
   * type is the flag type (a later duplicate is ignored), and its setter.
   */
  function FlagSetter(t: TypeDef): (r: Result<MethodDef>)
    ensures r == Failure(MemberNotFound("flag property")) <==>
            forall i :: 0 <= i < |t.properties| ==> t.properties[i].propertyType != FlagTypeName
    ensures r.Success? ==>
      exists i :: 0 <= i < |t.properties| && IsFlagProperty(t.properties[i]) &&
                  t.properties[i].setter == Some(r.value) &&
                  (forall j :: 0 <= j < i ==> !IsFlagProperty(t.properties[j]))
    ensures First(t.properties, IsFlagProperty).Found? ==>
      var p := First(t.properties, IsFlagProperty).value;
      && (p.setter.Some? ==> r == Success(p.setter.value))
      && (p.setter.None? ==> r == Failure(AccessorMissing("flag setter")))
  {
    match First(t.properties, IsFlagProperty)
    case Found(p) => if p.setter.Some? then Success(p.setter.value) else Failure(AccessorMissing("flag setter"))
    // `First` never reports ambiguity, so every other answer is "not found".
    case _ => Failure(MemberNotFound("flag property"))
  }

  /** `md` is the setter that `RewriteSetter` patches. */
  predicate IsFlagSetter(t: TypeDef, md: MethodDef)
  {
    FlagSetter(t).Success? && FlagSetter(t).value == md
  }

  /** The bodies `RewriteSetter` may read and change. */
  function SetterFrame(t: TypeDef): set<MethodBody>
  {
    Bodies(t) + if FlagSetter(t).Success? then {FlagSetter(t).value.body} else {}
  }

  /**
   * The setter patch and its outcome `r`, against the bodies' contents
   * `before`: a failed lookup is reported as such, a setter body of fewer
   * than two instructions is reported as malformed and left alone, and any
   * other body gets the OR block.
   */
  predicate SetterRewritten(t: TypeDef, before: map<MethodBody, seq<Instruction>>, flag: uint32, r: Outcome)
    reads SetterFrame(t)
  {
    match FlagSetter(t)
    case Failure(e) => r == Fail(e)
    case Success(setter) =>
      && setter.body in before
      && var old_ := before[setter.body];
      && if |old_| >= 2 then r == Pass && setter.body.instructions == OrFlagPatched(old_, flag)
         else r == Fail(MalformedMethodBody) && setter.body.instructions == old_
  }

  /** Every constructor of `t` has each `ret` of its contents in `before` guarded by `block`. */
  predicate ConstructorsPatched(t: TypeDef, before: map<MethodBody, seq<Instruction>>, block: seq<Instruction>)
    reads Bodies(t)
  {
    forall md :: md in t.methods && md.isConstructor ==>
      md.body in before && md.body.instructions == PatchRets(before[md.body], block)
  }

  /**
   * The engine's `RewriteSetter`: the flag property's setter gets
   * `ldc.i4 (int)flag; or` in front of its second-to-last instruction.
   */
  method RewriteSetter(t: TypeDef, flag: uint32) returns (r: Outcome)
    requires WellFormedType(t)
    modifies Bodies(t)
    ensures SetterRewritten(t, old(Snapshot(Bodies(t))), flag, r)
    ensures forall md :: md in t.methods && !IsFlagSetter(t, md) ==>
      md.body.instructions == old(md.body.instructions)
  {
    var found := FlagSetter(t);
    if found.Failure? {
      return Fail(found.error);
    }
    var setter := found.value;
    ghost var i :| 0 <= i < |t.properties| && t.properties[i].setter == Some(setter);
    assert t.properties[i] in t.properties;
    assert setter in t.methods;
    assert old(Snapshot(Bodies(t)))[setter.body] == old(setter.body.instructions);
    var ok := RewriteSetterBody(setter.body, flag);
    r := if ok then Pass else Fail(MalformedMethodBody);
    forall md | md in t.methods && md != setter
      ensures md.body != setter.body
    {
      if md.body == setter.body {
        SameBodySameMethod(t, md, setter);
      }
    }
  }

  /** The flag setter found by `FlagSetter` is an ordinary method of `t`. */
  lemma FlagSetterIsMethod(t: TypeDef)
    requires WellFormedType(t) && FlagSetter(t).Success?
    ensures FlagSetter(t).value in t.methods && !FlagSetter(t).value.isConstructor
  {
    var i :| 0 <= i < |t.properties| && t.properties[i].setter == Some(FlagSetter(t).value);
    assert t.properties[i] in t.properties;
  }

  /**
   * The constructor loop of `AddInternalVisibility`: `Where(IsConstructor)`
   * enumerated by `foreach`, with `EnableIgnoreAccessibility` on each.
   * Every constructor is patched, not only a default one.
   */
  method PatchConstructors(t: TypeDef, field: MemberRef, setter: MemberRef, flags: uint32)
    requires WellFormedType(t)
    modifies Bodies(t)
    ensures ConstructorsPatched(t, old(Snapshot(Bodies(t))), IgnoreAccessibilityBlock(flags, field, setter))
    ensures forall md :: md in t.methods && !md.isConstructor ==>
      md.body.instructions == old(md.body.instructions)
  {
    var ctors := Where(t.methods, IsConstructor);
    WhereKeepsDistinct(t.methods, IsConstructor, BodyOf);
    var k := 0;
    while k < |ctors|
      invariant 0 <= k <= |ctors|
      invariant forall j :: 0 <= j < k ==>
        ctors[j].body.instructions == PatchRets(old(ctors[j].body.instructions), IgnoreAccessibilityBlock(flags, field, setter))
      invariant forall j :: k <= j < |ctors| ==> ctors[j].body.instructions == old(ctors[j].body.instructions)
      invariant forall md :: md in t.methods && !md.isConstructor ==>
        md.body.instructions == old(md.body.instructions)
    {
      var ctor := ctors[k];
      assert ctor in t.methods && ctor.isConstructor;
      assert forall j :: 0 <= j < |ctors| && j != k ==> BodyOf(ctors[j]) != BodyOf(ctor);
      OnlyConstructorsShareBody(t, ctor);
      EnableIgnoreAccessibility(ctor.body, field, setter, flags);
      k := k + 1;
    }
  }

  /** A constructor's body is no other method's body. */
  lemma OnlyConstructorsShareBody(t: TypeDef, ctor: MethodDef)
    requires WellFormedType(t) && ctor in t.methods && ctor.isConstructor
    ensures forall md :: md in t.methods && !md.isConstructor ==> md.body != ctor.body
  {
    forall md | md in t.methods && !md.isConstructor
      ensures md.body != ctor.body
    {
      if md.body == ctor.body {
        SameBodySameMethod(t, md, ctor);
      }
    }
  }

  /**
   * What patching the target type leaves behind, against the contents
   * `before`: every constructor guarded, the flag setter rewritten (or the
   * reason it was not), and every other method as it was.
   */
  predicate TargetPatched(t: TypeDef, before: map<MethodBody, seq<Instruction>>, block: seq<Instruction>,
                          flags: uint32, r: Outcome)
    reads SetterFrame(t)
  {
    && ConstructorsPatched(t, before, block)
    && SetterRewritten(t, before, flags, r)
    && forall md :: md in t.methods && !md.isConstructor && !IsFlagSetter(t, md) ==>
         md.body in before && md.body.instructions == before[md.body]
  }

  /**
   * The patches `AddInternalVisibility` applies once every lookup has
   * succeeded: every constructor first, then the flag property's setter.
   */
  method PatchTargetType(t: TypeDef, field: MemberRef, setter: MemberRef, flags: uint32) returns (r: Outcome)
    requires WellFormedType(t)
    modifies Bodies(t)
    ensures TargetPatched(t, old(Snapshot(Bodies(t))), IgnoreAccessibilityBlock(flags, field, setter), flags, r)
  {
    ghost var before := Snapshot(Bodies(t));
    var block := IgnoreAccessibilityBlock(flags, field, setter);
    PatchConstructors(t, field, setter, flags);
    label Patched:
    r := RewriteSetter(t, flags);
    if FlagSetter(t).Success? {
      FlagSetterIsMethod(t);
      var flagSetter := FlagSetter(t).value;
      assert before[flagSetter.body] == old@Patched(Snapshot(Bodies(t)))[flagSetter.body];
    }
    forall md | md in t.methods && md.isConstructor
      ensures md.body in before && md.body.instructions == PatchRets(before[md.body], block)
    {
      if FlagSetter(t).Success? {
        FlagSetterIsMethod(t);
      }
      assert md.body.instructions == old@Patched(md.body.instructions);
    }
    forall md | md in t.methods && !md.isConstructor && !IsFlagSetter(t, md)
      ensures md.body in before && md.body.instructions == before[md.body]
    {
      assert md.body.instructions == old@Patched(md.body.instructions);
    }
  }

  /**
   * The lookups and patches of `AddInternalVisibility` on the module's
   * types: a failed lookup stops everything before any body is touched,
   * and only the target type's bodies ever change.
   */
  method PatchModule(types: seq<TypeDef>, resolver: map<string, TypeDef>, flags: uint32) returns (r: Outcome)
    requires forall t :: t in types ==> WellFormedType(t)
    modifies ModuleBodies(types)
    ensures match Resolve(types, resolver)
      case Failure(e) => r == Fail(e) && unchanged(ModuleBodies(types))
      case Success(pt) =>
        && TargetPatched(pt.target, old(Snapshot(Bodies(pt.target))),
                         IgnoreAccessibilityBlock(flags, pt.flagField, pt.importOptionsSetter), flags, r)
        && forall b :: b in ModuleBodies(types) && b !in Bodies(pt.target) ==> b.instructions == old(b.instructions)
  {
    var resolved := Resolve(types, resolver);
    if resolved.Failure? {
      return Fail(resolved.error);
    }
    var pt := resolved.value;
    assert pt.target in types;
    assert Bodies(pt.target) <= ModuleBodies(types);
    r := PatchTargetType(pt.target, pt.flagField, pt.importOptionsSetter, flags);
  }

  /**
   * The engine's `AddInternalVisibility`, up to writing the module: mark the
   * module IL-only, resolve the targets, patch every constructor of the
   * target type, then patch the flag property's setter. A failure stops the
   * sequence where it occurs; the module is then never written.
   */
  method AddInternalVisibility(m: ModuleDef, resolver: map<string, TypeDef>, flags: uint32) returns (r: Outcome)
    requires forall t :: t in m.types ==> WellFormedType(t)
    modifies m, ModuleBodies(m.types)
    ensures m.attributes == AsILOnly(old(m.attributes))
    ensures match Resolve(m.types, resolver)
      case Failure(e) => r == Fail(e) && unchanged(ModuleBodies(m.types))
      case Success(pt) =>
        && TargetPatched(pt.target, old(Snapshot(Bodies(pt.target))),
                         IgnoreAccessibilityBlock(flags, pt.flagField, pt.importOptionsSetter), flags, r)
        && forall b :: b in ModuleBodies(m.types) && b !in Bodies(pt.target) ==> b.instructions == old(b.instructions)
  {
    ghost var resolved := Resolve(m.types, resolver);
    m.ModifyModuleAsILOnly();
    if resolved.Success? {
      SnapshotUnchanged(Bodies(resolved.value.target));
    }
    r := PatchModule(m.types, resolver, flags);
  }
}

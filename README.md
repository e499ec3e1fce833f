# Compiler-accessibility patch engine, modelled in Dafny

This project models the patch engine of a command-line tool. The tool
rewrites the C# compiler's `Microsoft.CodeAnalysis.CSharp.dll` so that it
ignores accessibility checks: internal members become reachable. It also
lets the patch be undone. The model has three parts.

- **Structural lookup** (`lookup.dfy`, `internal_visibility.dfy`). The
  engine finds the `CSharpCompilationOptions` type by namespace and name
  (`module.GetType`, Program.cs:257), modelled as `First` over the module's
  type list. It then finds the single field declared as `BinderFlags` and
  the single `MetadataImportOptions` property of the base type with
  `Single`, the constructors with `Where` over `IsConstructor`
  (Program.cs:265), and the flag property with `First` (Program.cs:305).
  A lookup that would throw in the engine is an error value here. That
  value says which lookup failed and whether it found zero members or too
  many.
- **Bytecode patcher** (`cil.dfy`, `patcher.dfy`).
  - Every constructor has each of its `ret` instructions preceded by a
    six-instruction block. The block stores the flag value into the flag
    field and calls the import-options setter with 2.
  - The flag property's setter has `ldc.i4 flag; or` spliced in front of
    its second-to-last instruction.
  - The splicing itself is `InsertBefore`, a chain of `ILProcessor`
    insertions.
  - The module's `ILLibrary` attribute bit is replaced by `ILOnly`
    (`metadata.dfy`).
- **File swap protocol** (`file_swap.dfy`). For an active module `p`, the
  pristine backup is `p.bytes` and the staged output is `p.copy`. `Enable`
  runs `PrepareFile`, then patches into the staged file, then runs
  `ExchangeFile`. `Disable` runs `PrepareFile` alone.

Method bodies, the module and the file system are classes whose fields the
engine changes in place: the instruction list, the attribute word and the
map of files. Everything else is a value. Each method that changes state is
proved against a specification function. The lemmas are proved about those
functions:
- the exact placement of every original instruction and every inserted block
- the preservation of `ret` count and order
- ambiguity and absence errors in both directions
- idempotence of Enable and Disable
- the Disable-after-Enable round trip

## Model

| member | source | states |
|---|---|---|
| Lookup.First | Program.cs:305 | `First` fails exactly when no element matches, never reports ambiguity, and otherwise returns the earliest matching element |
| Lookup.Single | Program.cs:258 | `Single` reports "not found" exactly when no element matches, "ambiguous" exactly when two positions match, and otherwise returns the one and only match |
| Lookup.Where | Program.cs:265 | `Where` keeps only matching elements, keeps every one of them, and returns nothing longer than its input |
| Lookup.WhereInOrder | Program.cs:265 | the elements `Where` keeps are the matching positions of the input, in increasing order, each taken exactly once: order and multiplicity are preserved |
| Lookup.WhereKeepsDistinct | Program.cs:265-280 | the constructors picked out of a method list whose bodies are distinct objects still have pairwise distinct bodies, so patching one never touches another |
| Cil.ToInt32 | Program.cs:363 | the unchecked cast `(int)binderFlags` keeps the bits: the result is congruent to the flag modulo 2^32, and it is negative exactly when the flag's top bit is set |
| Cil.ToInt32RoundTrip | Program.cs:363 | reading the emitted `ldc.i4` immediate back as `uint` gives the flag back, so the cast loses nothing |
| Cil.DefaultFlagKeepsItsValue | Program.cs:42 | the default flag 0x400000 is emitted as the same number |
| Cil.MethodBody.InsertBeforeAt | Program.cs:387 | `ILProcessor.InsertBefore` puts the new instruction directly in front of the target and shifts the rest |
| Cil.MethodBody.InsertAfterAt | Program.cs:390 | `ILProcessor.InsertAfter` puts the new instruction directly behind the target |
| Patcher.Spliced | Program.cs:385-392 | the specification of a splice: the prefix is kept, the block sits at the anchor in order, and the suffix moves up by the block's length |
| Patcher.InsertBefore | Program.cs:385-392 | inserting `adds[0]` before the anchor and chaining each later element after the previous one leaves the block contiguous and in order directly before the anchor |
| Patcher.IgnoreAccessibilityBlock | Program.cs:362-367 | the release-build block has six instructions and no `ret`; it loads `(int)flags` and refers to the flag field and the import-options setter |
| Patcher.EnableIgnoreAccessibility | Program.cs:330-383 | the backward scan over a constructor body leaves it equal to the specification in which every original `ret` is preceded by the block |
| Patcher.PatchRetsLength | Program.cs:341-382 | the body grows by one block length per original `ret` |
| Patcher.PatchRetsKeepsRetCount | Program.cs:341-382 | the patched body has exactly as many `ret` instructions as the original: the block adds no exit point |
| Patcher.PatchRetsPlacement | Program.cs:341-382 | each original instruction survives, at the position shifted by one block for every `ret` up to and including it |
| Patcher.ShiftedIncreasing | Program.cs:341-382 | original instructions keep their relative order |
| Patcher.PatchRetsBlockBeforeRet | Program.cs:341-382 | the `|block|` positions directly in front of every original `ret` are exactly the block |
| Patcher.PatchRetsCover | Program.cs:341-382 | nothing else is added: every position holds an original instruction or part of a block in front of an original `ret` |
| Patcher.ScaledIsProduct | Program.cs:341-382 | the shift used in the placement lemmas is the block length times the count of `ret`s |
| Patcher.OrFlagBlock | Program.cs:310-314 | the setter block is `ldc.i4 (int)flag` followed by `or` |
| Patcher.OrFlagPatched | Program.cs:315 | the setter patch keeps all but the last two instructions, then has the two-instruction OR block, then the original last two |
| Patcher.RewriteSetterBody | Program.cs:307-315 | a setter body of at least two instructions gets the OR block in front of its second-to-last instruction; a shorter body, where `Count - 2` fails, is reported and left unchanged |
| Metadata.AsILOnly | Program.cs:287-291 | a module marked `ILLibrary` loses that bit and gains `ILOnly`, with every other bit kept; a module without `ILLibrary` is unchanged |
| Metadata.AsILOnlyIdempotent | Program.cs:285-292 | applying the attribute transform twice is applying it once, and `ILLibrary` is always clear afterwards |
| Metadata.ModuleDef.ModifyModuleAsILOnly | Program.cs:285-292 | the module's attribute word becomes `AsILOnly` of its old value |
| InternalVisibility.FlagField | Program.cs:258 | the flag-field lookup fails as not found exactly when no field is declared `BinderFlags`, as ambiguous exactly when two are, and otherwise returns the one `BinderFlags` field |
| InternalVisibility.ImportOptionsProperty | Program.cs:261 | the import-options lookup fails as not found exactly when no property is declared `MetadataImportOptions`, as ambiguous exactly when two are, and otherwise returns the one such property |
| InternalVisibility.Resolve | Program.cs:257-263 | resolution succeeds exactly when the target type exists, has one `BinderFlags` field and a resolvable base type whose one `MetadataImportOptions` property has both accessors; the target is missing exactly when no type has the expected namespace and name; a failed field or property lookup passes its own error through, an unresolvable base is reported as such, and a missing accessor is named; on success the three references are built from the declaring types' full names and the members' names |
| InternalVisibility.TwoFlagFieldsAreAmbiguous | Program.cs:258 | a target type with two `BinderFlags` fields is rejected as ambiguous rather than patched at the first one |
| InternalVisibility.MissingImportOptionsIsNotFound | Program.cs:261 | a base type without a `MetadataImportOptions` property is rejected as not found |
| InternalVisibility.FlagSetter | Program.cs:305-306 | the setter found is the setter of the earliest `BinderFlags` property; with no such property the lookup fails as not found, and when that property has no setter the accessor is reported missing |
| InternalVisibility.RewriteSetter | Program.cs:303-316 | against the bodies' contents before the call, the flag setter gets the OR block, a body too short for it is reported and left alone, a failed lookup is reported; every other method body is unchanged |
| InternalVisibility.PatchConstructors | Program.cs:265-280 | every constructor of the target type has each `ret` of its former contents guarded by the block, and no non-constructor body changes |
| InternalVisibility.PatchTargetType | Program.cs:265-281 | constructors and then the flag setter are patched, each against its contents on entry; no other method changes |
| InternalVisibility.PatchModule | Program.cs:257-281 | a failed lookup changes no method body of the module; otherwise the target type is patched as above and every body of every other type is unchanged |
| InternalVisibility.AddInternalVisibility | Program.cs:253-283 | the module is first re-marked IL-only, then the lookups run and the target type is patched; the outcome names the first failing step, and no body outside the target type ever changes |
| FileSwap.BackupPath | Program.cs:31 | the backup path differs from the active path |
| FileSwap.StagedPath | Program.cs:30 | the staged path differs from both the active and the backup path |
| FileSwap.FileSystem.Exists | Program.cs:297-298 | `File.Exists` answers whether a file is present at the path |
| FileSwap.FileSystem.Delete | Program.cs:299 | `File.Delete` removes the file at the path and nothing else; deleting a missing file is not an error and changes nothing |
| FileSwap.FileSystem.Move | Program.cs:300 | `File.Move` succeeds exactly when the source exists and the target does not; it then moves the source's contents to the target and removes the source, and otherwise fails with nothing changed, so it never overwrites |
| FileSwap.FileSystem.Write | Program.cs:282 | `module.Write` to the staged path replaces whatever the path held with the new contents, leaving every other path as it was |
| FileSwap.Prepared | Program.cs:294-301 | after preparing, no backup remains; if there was one, it is now the active file; without one, nothing changes; other paths are untouched |
| FileSwap.PrepareFile | Program.cs:294-301 | the delete-and-move sequence produces exactly `Prepared` |
| FileSwap.Exchanged | Program.cs:244-251 | with active and staged files present, the active file becomes the backup and the staged file becomes active; with the active file missing, only the stale backup is gone; with the staged file missing, the active file has become the backup and neither the active nor the staged path holds a file; other paths are untouched |
| FileSwap.ExchangeFile | Program.cs:244-251 | succeeds exactly when both the active and the staged file exist, and produces exactly `Exchanged` |
| FileSwap.Enabled | Program.cs:61-68 | a successful enable leaves the patched pristine module active, the pristine module as backup and no staged file; a failed one leaves the prepared state |
| FileSwap.Enable | Program.cs:61-68 | succeeds exactly when there is a pristine module and it patches successfully, and produces exactly `Enabled` |
| FileSwap.Disable | Program.cs:98 | disabling is preparing: the backup, if any, is restored as the active file |
| FileSwap.PrepareIdempotent | Program.cs:98 | disabling twice is disabling once |
| FileSwap.DisableAfterEnable | Program.cs:61-98 | disable after enable restores the pristine module at the active path, leaves no backup, and agrees with disable alone everywhere except the staged path |
| FileSwap.EnableIdempotent | Program.cs:61-68 | enabling twice leaves the same files as enabling once |

### Behaviour worth knowing

- `PrepareFile` (Program.cs:294-301) restores the backup whenever one
  exists, even when an active file exists too: it deletes the active file
  and moves the backup over it. So `Enable` always patches the pristine
  module, never an already-patched one, and `EnableIdempotent` proves that
  enabling twice equals enabling once.
- `Disable` with neither the active file nor a backup present is not an
  error (Program.cs:98, 294-296). `PrepareFile` simply returns.
- `ExchangeFile` deletes the stale backup before checking anything else
  (Program.cs:246-248), so it is not all-or-nothing. If the active file is
  missing, the backup is lost and the first move fails. If the staged file
  is missing, the second move fails and no file is left at the active
  path. `Exchanged` states both cases.
- `First` on the setter property (Program.cs:305) quietly takes the first of
  several `BinderFlags` properties. Unlike the field lookup, it does not
  report an ambiguity.

## Left out

- Command-line hosting, option parsing, console output and the per-command
  `try`/`catch` that prints exceptions: a failure is an error outcome
  instead.
- Directory discovery under installation trees, the Visual Studio Code
  variants and the release-bundle download: these are I/O glue outside the
  patch engine.
- Reading and writing a module (`ReadModule`, `module.Write`) and Cecil's
  serialisation. In `Enable`, loading, patching and writing are one
  deterministic parameter `patch: Bytes -> Option<Bytes>`. `None` stands for
  any lookup or patch failure. A failed write is not modelled.
- Assembly resolution (`BaseType.Resolve()`) is a map from full type name
  to type definition. `ImportReference` is modelled as building a member
  reference from the declaring type's full name and the member's name.
- The `DEBUG` build's extra instrumentation block: only the release block
  is modelled.
- What the patched instructions do at run time, such as the stored flag
  becoming `value | flag`: the model is about the instruction lists.
- Branch targets and exception handlers that point at a `ret`: Cecil
  leaves them on the original instruction, and the model has no branch
  operands.
- Instruction anchors are indices, not object identities. Cecil finds an
  anchor by reference. The model uses the position the anchor has at the
  time of the call.
- Cil.MethodBody: every method is assumed to have a body. Abstract and
  extern methods are not modelled.
- Patcher.InsertBefore: requires a non-empty block, because `adds[0]` would
  throw. Every caller passes two or six instructions.
- Metadata.WellFormedType: the model assumes distinct methods have distinct
  bodies and that a property's setter is an ordinary method of the same
  type. Cecil guarantees both, and the model takes them as a requirement of
  `AddInternalVisibility`.

/**
 * The bytecode vocabulary the patch engine emits, and a method body whose
 * instruction list is edited in place the way `ILProcessor` edits it.
 */
module Cil {

  /** The engine's `uint` flag value. */
  newtype uint32 = x: int | 0 <= x < 0x1_0000_0000

  /** The signed 32-bit immediate that `ldc.i4` carries. */
  newtype int32 = x: int | -0x8000_0000 <= x < 0x8000_0000

  /**
   * The unchecked C# cast `(int)flag`: the bits are kept and read back as a
   * two's-complement number, so the result is the one 32-bit signed value
   * congruent to `flag` modulo 2^32. No range check takes place.
   */
  function ToInt32(flag: uint32): (r: int32)
    ensures (flag as int - r as int) % 0x1_0000_0000 == 0
    ensures r >= 0 <==> flag < 0x8000_0000
  {
    if flag < 0x8000_0000 then flag as int as int32
    else (flag as int - 0x1_0000_0000) as int32
  }

  /** The unchecked cast back, `(uint)i`. */
  function ToUInt32(i: int32): (r: uint32)
    ensures (r as int - i as int) % 0x1_0000_0000 == 0
  {
    if i >= 0 then i as int as uint32 else (i as int + 0x1_0000_0000) as uint32
  }

  /** The cast loses nothing: reading the immediate back as `uint` gives the flag. */
  lemma ToInt32RoundTrip(flag: uint32)
    ensures ToUInt32(ToInt32(flag)) == flag
    ensures ToInt32(ToUInt32(ToInt32(flag))) == ToInt32(flag)
  {
  }

  /** The default `TopLevelBinderFlags` value 0x400000 is embedded unchanged. */
  const DefaultBinderFlags: uint32 := 0x400000

  lemma DefaultFlagKeepsItsValue()
    ensures ToInt32(DefaultBinderFlags) as int == DefaultBinderFlags as int
  {
  }

  /** The opcodes the engine tests for or emits; every other opcode is `Other`. */
  datatype OpCode =
    | Ldarg_0
    | Ldc_I4
    | Ldc_I4_2
    | Stfld
    | Call
    | Or
    | Ret
    | Other(code: nat)

  /** A reference to a field or method, by declaring type and member name. */
  datatype MemberRef = MemberRef(declaringType: string, name: string)

  datatype Operand = NoOperand | IntLiteral(value: int32) | Member(ref: MemberRef)

  datatype Instruction = Instruction(op: OpCode, operand: Operand)

  /**
   * A method body. `instructions` is the live instruction collection; an
   * insertion is relative to an existing instruction, identified here by
   * its current index.
   */
  class MethodBody {
    var instructions: seq<Instruction>

    constructor (instructions: seq<Instruction>)
      ensures this.instructions == instructions
    {
      this.instructions := instructions;
    }

    /** `ILProcessor.InsertBefore(target, x)` with `target` at index `at`. */
    method InsertBeforeAt(at: nat, x: Instruction)
      requires at < |instructions|
      modifies this
      ensures instructions == old(instructions)[..at] + [x] + old(instructions)[at..]
    {
      instructions := instructions[..at] + [x] + instructions[at..];
    }

    /** `ILProcessor.InsertAfter(target, x)` with `target` at index `at`. */
    method InsertAfterAt(at: nat, x: Instruction)
      requires at < |instructions|
      modifies this
      ensures instructions == old(instructions)[..at + 1] + [x] + old(instructions)[at + 1..]
    {
      instructions := instructions[..at + 1] + [x] + instructions[at + 1..];
    }
  }
}

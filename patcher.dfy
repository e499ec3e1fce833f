/**
 * The instruction patcher: splicing a block of instructions in front of an
 * anchor, guarding every `ret` of a constructor with the flag-setting block,
 * and OR-ing the flag into the value a property setter stores.
 */
module Patcher {
  import opened Cil

  /** `s` with `adds` placed directly before position `at`. */
  function Spliced(s: seq<Instruction>, at: nat, adds: seq<Instruction>): (r: seq<Instruction>)
    requires at <= |s|
    ensures |r| == |s| + |adds|
    ensures forall k :: 0 <= k < at ==> r[k] == s[k]
    ensures forall k :: 0 <= k < |adds| ==> r[at + k] == adds[k]
    ensures forall k :: at <= k < |s| ==> r[k + |adds|] == s[k]
  {
    s[..at] + adds + s[at..]
  }

  /**
   * The engine's `InsertBefore`: `adds[0]` goes in front of the anchor, and
   * each later element is chained after the one inserted just before it.
   * The block ends up contiguous, in order, directly before the anchor.
   */
  method InsertBefore(body: MethodBody, anchor: nat, adds: seq<Instruction>)
    requires anchor < |body.instructions|
    requires |adds| > 0
    modifies body
    ensures body.instructions == Spliced(old(body.instructions), anchor, adds)
  {
    ghost var s := body.instructions;
    body.InsertBeforeAt(anchor, adds[0]);
    var j := 1;
    while j < |adds|
      invariant 1 <= j <= |adds|
      invariant body.instructions == s[..anchor] + adds[..j] + s[anchor..]
    {
      assert adds[..j + 1] == adds[..j] + [adds[j]];
      body.InsertAfterAt(anchor + j - 1, adds[j]);
      j := j + 1;
    }
    assert adds[..j] == adds;
  }

  /**
   * The release-build block spliced before each `ret` of a constructor:
   * `this.<flag field> = (int)flags; this.<import options setter>(2);`.
   */
  function IgnoreAccessibilityBlock(flags: uint32, field: MemberRef, setter: MemberRef): (r: seq<Instruction>)
    ensures |r| == 6
    ensures forall k :: 0 <= k < |r| ==> r[k].op != Ret
    ensures r[1] == Instruction(Ldc_I4, IntLiteral(ToInt32(flags)))
    ensures r[2].operand == Member(field) && r[5].operand == Member(setter)
  {
    [ Instruction(Ldarg_0, NoOperand),
      Instruction(Ldc_I4, IntLiteral(ToInt32(flags))),
      Instruction(Stfld, Member(field)),
      Instruction(Ldarg_0, NoOperand),
      Instruction(Ldc_I4_2, NoOperand),
      Instruction(Call, Member(setter)) ]
  }

  predicate IsRet(x: Instruction)
  {
    x.op == Ret
  }

  /** What one original instruction becomes: a `ret` gets the block in front. */
  function Guarded(x: Instruction, block: seq<Instruction>): seq<Instruction>
  {
    if IsRet(x) then block + [x] else [x]
  }

  /** The specification of the constructor patch: every `ret` of `s` guarded. */
  function PatchRets(s: seq<Instruction>, block: seq<Instruction>): seq<Instruction>
  {
    if s == [] then [] else Guarded(s[0], block) + PatchRets(s[1..], block)
  }

  /** The number of `ret` instructions in `s`. */
  function CountRets(s: seq<Instruction>): nat
  {
    if s == [] then 0 else (if IsRet(s[0]) then 1 else 0) + CountRets(s[1..])
  }

  /** The length of `count` copies of a block of `width` instructions. */
  function Scaled(count: nat, width: nat): nat
  {
    if count == 0 then 0 else width + Scaled(count - 1, width)
  }

  lemma {:induction false} ScaledIsProduct(count: nat, width: nat)
    ensures Scaled(count, width) == count * width
  {
    if count > 0 {
      ScaledIsProduct(count - 1, width);
    }
  }

  lemma {:induction false} ScaledAdd(a: nat, b: nat, width: nat)
    ensures Scaled(a + b, width) == Scaled(a, width) + Scaled(b, width)
  {
    if a > 0 {
      ScaledAdd(a - 1, b, width);
    }
  }

  /**
   * Where the original instruction `s[k]` lands in `PatchRets(s, block)`:
   * `k` plus one block for every `ret` up to and including `s[k]`.
   */
  function Shifted(s: seq<Instruction>, block: seq<Instruction>, k: nat): nat
    requires k < |s|
  {
    k + Scaled(CountRets(s[..k + 1]), |block|)
  }

  lemma {:induction false} CountRetsAppend(a: seq<Instruction>, b: seq<Instruction>)
    ensures CountRets(a + b) == CountRets(a) + CountRets(b)
  {
    if a != [] {
      assert (a + b)[1..] == a[1..] + b;
      CountRetsAppend(a[1..], b);
    } else {
      assert a + b == b;
    }
  }

  /** The body grows by the block's length once per original `ret`. */
  lemma {:induction false} PatchRetsLength(s: seq<Instruction>, block: seq<Instruction>)
    ensures |PatchRets(s, block)| == |s| + |block| * CountRets(s)
  {
    if s != [] {
      PatchRetsLength(s[1..], block);
      var c := CountRets(s[1..]);
      if IsRet(s[0]) {
        assert CountRets(s) == 1 + c;
        assert |block| * (1 + c) == |block| + |block| * c;
      } else {
        assert CountRets(s) == c;
      }
    }
  }

  /**
   * A block without `ret` adds no exit point: the patched body has exactly
   * the original `ret` instructions.
   */
  lemma {:induction false} PatchRetsKeepsRetCount(s: seq<Instruction>, block: seq<Instruction>)
    requires forall k :: 0 <= k < |block| ==> !IsRet(block[k])
    ensures CountRets(PatchRets(s, block)) == CountRets(s)
  {
    if s != [] {
      PatchRetsKeepsRetCount(s[1..], block);
      NoRetsInBlock(block);
      CountRetsAppend(Guarded(s[0], block), PatchRets(s[1..], block));
      if IsRet(s[0]) {
        CountRetsAppend(block, [s[0]]);
      }
    }
  }

  lemma {:induction false} NoRetsInBlock(block: seq<Instruction>)
    requires forall k :: 0 <= k < |block| ==> !IsRet(block[k])
    ensures CountRets(block) == 0
  {
    if block != [] {
      NoRetsInBlock(block[1..]);
    }
  }

  /**
   * Exact placement: each original instruction `s[k]` sits at `Shifted(s,
   * block, k)` of the patched body.
   */
  lemma {:induction false} PatchRetsPlacement(s: seq<Instruction>, block: seq<Instruction>, k: nat)
    requires k < |s|
    ensures Shifted(s, block, k) < |PatchRets(s, block)|
    ensures PatchRets(s, block)[Shifted(s, block, k)] == s[k]
  {
    var g := Guarded(s[0], block);
    var rest := PatchRets(s[1..], block);
    var whole := PatchRets(s, block);
    assert whole == g + rest;
    if k == 0 {
      assert s[..1] == [s[0]];
      assert CountRets(s[..1]) == if IsRet(s[0]) then 1 else 0;
      assert Scaled(0, |block|) == 0;
    } else {
      PatchRetsPlacement(s[1..], block, k - 1);
      ShiftedStep(s, block, k);
    }
  }

  /**
   * Every original `ret` is directly preceded by exactly the block: the
   * `|block|` positions in front of it hold the block's instructions in order.
   */
  lemma {:induction false} PatchRetsBlockBeforeRet(s: seq<Instruction>, block: seq<Instruction>, k: nat)
    requires k < |s| && IsRet(s[k])
    ensures |block| <= Shifted(s, block, k) < |PatchRets(s, block)|
    ensures PatchRets(s, block)[Shifted(s, block, k) - |block|..Shifted(s, block, k)] == block
  {
    if k == 0 {
      BlockBeforeFirstRet(s, block);
    } else {
      PatchRetsBlockBeforeRet(s[1..], block, k - 1);
      BlockBeforeLaterRet(s, block, k);
    }
  }

  /** A later `ret` keeps its block, moved up by the patched head instruction. */
  lemma BlockBeforeLaterRet(s: seq<Instruction>, block: seq<Instruction>, k: nat)
    requires 0 < k < |s|
    requires |block| <= Shifted(s[1..], block, k - 1) < |PatchRets(s[1..], block)|
    requires PatchRets(s[1..], block)[Shifted(s[1..], block, k - 1) - |block|..Shifted(s[1..], block, k - 1)] == block
    ensures |block| <= Shifted(s, block, k) < |PatchRets(s, block)|
    ensures PatchRets(s, block)[Shifted(s, block, k) - |block|..Shifted(s, block, k)] == block
  {
    ShiftedStep(s, block, k);
    var g, rest := Guarded(s[0], block), PatchRets(s[1..], block);
    assert PatchRets(s, block) == g + rest;
    BlockBehindPrefix(PatchRets(s, block), g, rest, block, Shifted(s[1..], block, k - 1));
  }

  /** A block that ends at `end` in `rest` ends at `|g| + end` in `g + rest`. */
  lemma BlockBehindPrefix<T>(whole: seq<T>, g: seq<T>, rest: seq<T>, block: seq<T>, end: nat)
    requires whole == g + rest
    requires |block| <= end < |rest| && rest[end - |block|..end] == block
    ensures |block| <= |g| + end < |whole|
    ensures whole[|g| + end - |block|..|g| + end] == block
  {
    assert whole[|g| + end - |block|..|g| + end] == rest[end - |block|..end];
  }

  /** A leading `ret` is preceded by the block at the very start. */
  lemma BlockBeforeFirstRet(s: seq<Instruction>, block: seq<Instruction>)
    requires 0 < |s| && IsRet(s[0])
    ensures Shifted(s, block, 0) == |block| < |PatchRets(s, block)|
    ensures PatchRets(s, block)[0..|block|] == block
  {
    var g := Guarded(s[0], block);
    assert PatchRets(s, block) == g + PatchRets(s[1..], block);
    assert s[..1] == [s[0]];
    assert CountRets(s[..1]) == 1;
    assert Scaled(1, |block|) == |block| + Scaled(0, |block|) == |block|;
    assert g == block + [s[0]];
  }

  /** Position `n` of the patched body is `s[k]` or part of the block in front of it. */
  ghost predicate Accounted(s: seq<Instruction>, block: seq<Instruction>, n: nat, k: nat)
    requires k < |s|
  {
    n == Shifted(s, block, k) ||
    (IsRet(s[k]) && Shifted(s, block, k) - |block| <= n < Shifted(s, block, k))
  }

  /**
   * Nothing else is added: every position of the patched body holds either
   * an original instruction or a member of the block in front of an
   * original `ret`.
   */
  lemma {:induction false} PatchRetsCover(s: seq<Instruction>, block: seq<Instruction>, n: nat)
    requires n < |PatchRets(s, block)|
    ensures exists k :: 0 <= k < |s| && Accounted(s, block, n, k)
  {
    var g := Guarded(s[0], block);
    var rest := PatchRets(s[1..], block);
    assert PatchRets(s, block) == g + rest;
    if n < |g| {
      assert s[..1] == [s[0]];
      assert CountRets(s[..1]) == if IsRet(s[0]) then 1 else 0;
      assert Scaled(0, |block|) == 0;
      assert Accounted(s, block, n, 0);
    } else {
      PatchRetsCover(s[1..], block, n - |g|);
      var k' :| 0 <= k' < |s[1..]| && Accounted(s[1..], block, n - |g|, k');
      ShiftedStep(s, block, k' + 1);
      assert Accounted(s, block, n, k' + 1);
    }
  }

  /** `Shifted` of a later instruction, counted past the first one. */
  lemma ShiftedStep(s: seq<Instruction>, block: seq<Instruction>, k: nat)
    requires 0 < k < |s|
    ensures Shifted(s, block, k) == |Guarded(s[0], block)| + Shifted(s[1..], block, k - 1)
  {
    var c := CountRets(s[1..][..k]);
    assert s[..k + 1][1..] == s[1..][..k];
    if IsRet(s[0]) {
      assert CountRets(s[..k + 1]) == 1 + c;
    } else {
      assert CountRets(s[..k + 1]) == c;
    }
  }

  /** Later original instructions stay later: the relative order is kept. */
  lemma {:induction false} ShiftedIncreasing(s: seq<Instruction>, block: seq<Instruction>, i: nat, j: nat)
    requires i < j < |s|
    ensures Shifted(s, block, i) < Shifted(s, block, j)
  {
    assert s[..j + 1] == s[..i + 1] + s[i + 1..j + 1];
    CountRetsAppend(s[..i + 1], s[i + 1..j + 1]);
    ScaledAdd(CountRets(s[..i + 1]), CountRets(s[i + 1..j + 1]), |block|);
  }

  /** Splitting the suffix `s[i..]` at its head, as the backward scan needs. */
  lemma PatchRetsUnfold(s: seq<Instruction>, i: nat, block: seq<Instruction>)
    requires i < |s|
    ensures PatchRets(s[i..], block) == Guarded(s[i], block) + PatchRets(s[i + 1..], block)
  {
    assert s[i..][1..] == s[i + 1..];
  }

  /**
   * The engine's `EnableIgnoreAccessibility`, release build. It scans from
   * the last index down to 0; the bound is the count before any insertion,
   * and an insertion at index `i` only moves instructions at `i` and after,
   * so the scan never meets an inserted instruction.
   */
  method EnableIgnoreAccessibility(body: MethodBody, field: MemberRef, setter: MemberRef, flags: uint32)
    modifies body
    ensures body.instructions ==
            PatchRets(old(body.instructions), IgnoreAccessibilityBlock(flags, field, setter))
  {
    ghost var s := body.instructions;
    var i := |body.instructions| - 1;
    while i >= 0
      invariant -1 <= i < |s|
      invariant body.instructions == s[..i + 1] + PatchRets(s[i + 1..], IgnoreAccessibilityBlock(flags, field, setter))
      decreases i + 1
    {
      var instruction := body.instructions[i];
      var adds := IgnoreAccessibilityBlock(flags, field, setter);
      ScanStep(s, i, adds);
      if instruction.op == Ret {
        InsertBefore(body, i, adds);
      }
      i := i - 1;
    }
    assert s[..0] == [] && s[0..] == s;
  }

  /** One step of the backward scan, from `i + 1` down to `i`. */
  lemma ScanStep(s: seq<Instruction>, i: nat, block: seq<Instruction>)
    requires i < |s|
    ensures (s[..i + 1] + PatchRets(s[i + 1..], block))[i] == s[i]
    ensures IsRet(s[i]) ==>
      Spliced(s[..i + 1] + PatchRets(s[i + 1..], block), i, block) == s[..i] + PatchRets(s[i..], block)
    ensures !IsRet(s[i]) ==>
      s[..i + 1] + PatchRets(s[i + 1..], block) == s[..i] + PatchRets(s[i..], block)
  {
    ScanSplit(s, i, block);
    if IsRet(s[i]) {
      ScanStepRet(s, i, block);
    } else {
      PatchRetsUnfold(s, i, block);
    }
  }

  /** The scanned prefix ends in `s[i]`, and the patched suffix follows it. */
  lemma ScanSplit(s: seq<Instruction>, i: nat, block: seq<Instruction>)
    requires i < |s|
    ensures s[..i + 1] + PatchRets(s[i + 1..], block) == s[..i] + ([s[i]] + PatchRets(s[i + 1..], block))
  {
    assert s[..i + 1] == s[..i] + [s[i]];
  }

  /** Splicing the block in front of a `ret` at `i` guards that `ret`. */
  lemma ScanStepRet(s: seq<Instruction>, i: nat, block: seq<Instruction>)
    requires i < |s| && IsRet(s[i])
    ensures Spliced(s[..i + 1] + PatchRets(s[i + 1..], block), i, block) == s[..i] + PatchRets(s[i..], block)
  {
    var tail := PatchRets(s[i + 1..], block);
    var t := s[..i + 1] + tail;
    ScanSplit(s, i, block);
    PatchRetsUnfold(s, i, block);
    assert t[..i] == s[..i];
    assert t[i..] == [s[i]] + tail;
    assert (block + [s[i]]) + tail == block + ([s[i]] + tail);
  }

  /** The two instructions spliced into the flag property's setter. */
  function OrFlagBlock(flag: uint32): (r: seq<Instruction>)
    ensures |r| == 2 && r[0].operand == IntLiteral(ToInt32(flag)) && r[1].op == Or
  {
    [Instruction(Ldc_I4, IntLiteral(ToInt32(flag))), Instruction(Or, NoOperand)]
  }

  /**
   * The specification of the setter patch: `ldc.i4 (int)flag; or` directly
   * before the second-to-last instruction, so the stored value is OR-ed with
   * the flag and the final store-and-return pair stays last.
   */
  function OrFlagPatched(s: seq<Instruction>, flag: uint32): (r: seq<Instruction>)
    requires |s| >= 2
    ensures |r| == |s| + 2
    ensures r[..|s| - 2] == s[..|s| - 2]
    ensures r[|s| - 2] == Instruction(Ldc_I4, IntLiteral(ToInt32(flag)))
    ensures r[|s| - 1] == Instruction(Or, NoOperand)
    ensures r[|s|..] == s[|s| - 2..]
  {
    Spliced(s, |s| - 2, OrFlagBlock(flag))
  }

  /**
   * The instruction-level part of the engine's `RewriteSetter`: a body of
   * fewer than two instructions has no second-to-last instruction, and the
   * index `Count - 2` fails; that is reported as `false`, with nothing changed.
   */
  method RewriteSetterBody(body: MethodBody, flag: uint32) returns (ok: bool)
    modifies body
    ensures ok == (|old(body.instructions)| >= 2)
    ensures ok ==> body.instructions == OrFlagPatched(old(body.instructions), flag)
    ensures !ok ==> body.instructions == old(body.instructions)
  {
    if |body.instructions| < 2 {
      return false;
    }
    var adds := OrFlagBlock(flag);
    InsertBefore(body, |body.instructions| - 2, adds);
    ok := true;
  }
}

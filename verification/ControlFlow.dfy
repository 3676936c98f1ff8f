/**
  The interpreter and the loader agree on where instructions begin: from an instruction that
  the loader visited, the interpreter continues at one that the loader visited.
*/
module ControlFlow {
  import opened Pawn
  import opened Wrappers
  import opened Optimizer
  import opened Relocation

  /** Instructions whose next address comes from a register or from the stack. */
  predicate RegisterControlled(op: cell) {
    op in {RET, RETN, CALL_PRI, JUMP_PRI, SCTRL}
  }

  /** The instructions that the model leaves open do not jump. */
  ghost predicate OthersFallThrough(env: Env) {
    forall op, arg, s ::
      !RegisterControlled(op) && env.other(op, arg, s).Running? ==> env.other(op, arg, s).s.cip == s.cip
  }

  /** A byte offset at which an instruction of `code` begins. */
  predicate OffsetOf(code: seq<cell>, offset: int) {
    0 <= offset && offset % CELL == 0 && Boundary(code, offset / CELL)
  }

  predicate NamesInstruction(code: seq<cell>, operand: cell) {
    OffsetOf(code, operand) && operand / CELL < |code|
  }

  predicate NamesTable(code: seq<cell>, operand: cell) {
    NamesInstruction(code, operand) && code[operand / CELL] == CASETBL
  }

  /** What a compiler guarantees: every jump operand is the offset of an instruction in the
      code, and that of a SWITCH is the offset of a case table. */
  ghost predicate ClosedJumps(code: seq<cell>) {
    && 4 * |code| < 0x8000_0000
    && (forall i, k :: 0 <= i < |code| && Boundary(code, i) && 0 <= k < |code| && SlotOf(code, i, k) ==> NamesInstruction(code, code[k]))
    && (forall i :: 0 <= i && i + 1 < |code| && Boundary(code, i) && code[i] == SWITCH ==> NamesTable(code, code[i+1]))
    && (forall i :: 0 <= i && i + 1 < |code| && Boundary(code, i) && code[i] == JREL ==> OffsetOf(code, CELL * (i + 2) + code[i+1]))
  }

  lemma TargetRelocated(base: int, offset: cell)
    requires 0 <= offset
    ensures JumpTarget(base, Wrap(offset + base)) == offset
  {
    var w := Wrap(offset + base);
    assert (w - base - offset) % 0x1_0000_0000 == 0;
  }

  // ----- boundaries of the browsed code -----

  /** A boundary of the code stays one. */
  lemma {:induction false} BoundaryKept(code: seq<cell>, base: int, hook: Hook, i: nat, j: nat)
    requires Browsable(code, 0) && Boundary(code, i) && i <= |code| && Reaches(code, i, j)
    ensures Reaches(Browsed(code, base, hook, 0), i, j)
    decreases |code| - i
  {
    if i < j {
      hide Browsed, Browsable, Reaches, Length, Fits, LayoutOf;
      InstructionFirst(code, i, j);
      BoundaryNext(code, 0, i);
      BoundaryKept(code, base, hook, i + Length(code, i), j);
      KeptFrom(code, base, hook, i, j);
    }
  }

  lemma KeptFrom(code: seq<cell>, base: int, hook: Hook, i: nat, j: nat)
    requires Browsable(code, 0) && Boundary(code, i) && i < |code| && LayoutOf(code[i]).Some?
    requires i + Length(code, i) >= 0 && Reaches(Browsed(code, base, hook, 0), i + Length(code, i), j)
    ensures Reaches(Browsed(code, base, hook, 0), i, j)
  {
    hide Browsed, Browsable, Patched, Reaches, Length, Fits, LayoutOf;
    var out := Browsed(code, base, hook, 0);
    InstructionKept(code, base, hook, i);
    if Patched(code, hook, i) { InstructionBefore(out, i + 1, j); }
    InstructionBefore(out, i, j);
  }

  lemma BeginningBoundary(code: seq<cell>)
    ensures Boundary(code, 0)
  {
  }

  lemma InstructionFirst(code: seq<cell>, i: nat, j: nat)
    requires Reaches(code, i, j) && i < j
    ensures i < |code| && LayoutOf(code[i]).Some? && Fits(code, i) && Reaches(code, i + Length(code, i), j)
    ensures 0 < Length(code, i) <= |code| - i
  {
  }

  lemma InstructionBefore(code: seq<cell>, i: nat, j: nat)
    requires i < |code| && LayoutOf(code[i]).Some? && Fits(code, i) && Reaches(code, i + Length(code, i), j)
    ensures Reaches(code, i, j)
  {
  }

  /** A browsed instruction takes the cells of the original one: as one instruction, or as a
      FLOAT instruction and a NOP. */
  lemma InstructionKept(code: seq<cell>, base: int, hook: Hook, i: nat)
    requires Browsable(code, 0) && Boundary(code, i) && i < |code| && LayoutOf(code[i]).Some?
    ensures Fits(code, i)
    ensures var out := Browsed(code, base, hook, 0);
      if Patched(code, hook, i) then
        FLOAT_MUL <= out[i] <= FLOAT_CMP && out[i] == OP_TRANS_TABLE[FloatOp(hook.value, code[i+1]).value] && out[i+1] == NOP
        && Length(code, i) == 2 && Length(out, i) == Length(out, i + 1) == 1 && Fits(out, i) && Fits(out, i + 1)
        && LayoutOf(out[i]).Some? && LayoutOf(out[i+1]).Some?
      else
        out[i] == code[i] && Length(out, i) == Length(code, i) && Fits(out, i)
  {
    BrowsedInstruction(code, base, hook, i);
  }

  /** Every boundary of the browsed code is one of the code, or the NOP of a replaced call. */
  lemma {:induction false} BoundaryOrigin(code: seq<cell>, base: int, hook: Hook, i: nat, j: nat)
    requires Browsable(code, 0) && Boundary(code, i) && i <= |code| && Reaches(Browsed(code, base, hook, 0), i, j)
    ensures Boundary(code, j) || (j > 0 && PatchedAt(code, hook, j - 1))
    decreases |code| - i
  {
    if i < j {
      OneStep(code, base, hook, i, j);
      if Patched(code, hook, i) && j == i + 1 {
        assert PatchedAt(code, hook, j - 1);
      } else {
        BoundaryOrigin(code, base, hook, i + Length(code, i), j);
      }
    }
  }

  lemma OneStep(code: seq<cell>, base: int, hook: Hook, i: nat, j: nat)
    requires Browsable(code, 0) && Boundary(code, i) && i <= |code| && i < j
    requires var out := Browsed(code, base, hook, 0); Reaches(out, i, j)
    ensures i < |code| && LayoutOf(code[i]).Some? && Fits(code, i) && Boundary(code, i + Length(code, i))
    ensures var out := Browsed(code, base, hook, 0);
      (Patched(code, hook, i) && j == i + 1) || Reaches(out, i + Length(code, i), j)
  {
    hide Browsed, Browsable;
    InstructionWhole(code, i);
    InstructionKept(code, base, hook, i);
    BoundaryNext(code, 0, i);
  }

  // ----- which instructions have an operand -----

  /** An instruction that the loader takes for one cell does not look at an operand. */
  lemma PlainHasNoOperand(env: Env, op: cell, a: cell, s: State, n: nat)
    requires LayoutOf(op) == Some(Plain) && env.other(op, a, s) == env.other(op, 0, s)
    requires forall x: cell, y: cell :: env.alu(op, a, x, y) == env.alu(op, 0, x, y)
    ensures Execute(env, op, a, s, n) == Execute(env, op, 0, s, n)
  {
    hide Compares, Wrap, Accessible;
  }

  /** An instruction that the loader takes for two cells does look at its operand, as far as the
      model says what it does. */
  lemma OperandCounts(env: Env, op: cell) returns (s: State, a: cell, b: cell)
    requires LayoutOf(op) == Some(Operand) || LayoutOf(op) == Some(Target)
    requires IsData(op) || IsStack(op) || op in {CALL, JUMP, JREL, ADD_C, EQ_C_PRI, EQ_C_ALT, BOUNDS, HALT} || JZER <= op <= JSGEQ
    ensures Execute(env, op, a, s, 0) != Execute(env, op, b, s, 0)
  {
    var mem: Memory := map[0 := 0, 4 := 4, 8 := 8];
    var pri: cell := if op in {JNZ, JEQ + 4, JEQ + 8} then 1 else if op == BOUNDS then 2 else 0;
    var alt: cell := if op in {JEQ + 1, JEQ + 2, JEQ + 6} then 1 else 0;
    s, a, b := State(pri, alt, 0, 8, 0, 0, mem), 0, 4;
    if IsData(op) {
      DataOperand(env, op, s);
    } else {
      OtherOperand(env, op, s);
    }
  }

  lemma DataOperand(env: Env, op: cell, s: State)
    requires IsData(op) && (LayoutOf(op) == Some(Operand) || LayoutOf(op) == Some(Target))
    requires s.frm == 0 && s.mem == map[0 := 0, 4 := 4, 8 := 8] && s.pri < 4 && s.alt < 4
    ensures ExecData(env, op, 0, s) != ExecData(env, op, 4, s)
  {
    DifferentMemories(ExecData(env, op, 0, s), ExecData(env, op, 4, s));
  }

  lemma DifferentMemories(o: Outcome, o': Outcome)
    ensures o.Running? && o'.Running? && 4 in o.s.mem && 4 in o'.s.mem && o.s.mem[4] != o'.s.mem[4] ==> o != o'
  {
  }

  lemma OtherOperand(env: Env, op: cell, s: State)
    requires !IsData(op) && (LayoutOf(op) == Some(Operand) || LayoutOf(op) == Some(Target))
    requires IsStack(op) || op in {CALL, JUMP, JREL, ADD_C, EQ_C_PRI, EQ_C_ALT, BOUNDS, HALT} || JZER <= op <= JSGEQ
    requires s.frm == 0 && s.stk == 8 && s.hea == 0 && s.cip == 0 && s.mem == map[0 := 0, 4 := 4, 8 := 8]
    requires s.pri == if op in {JNZ, JEQ + 4, JEQ + 8} then 1 else if op == BOUNDS then 2 else 0
    requires s.alt == if op in {JEQ + 1, JEQ + 2, JEQ + 6} then 1 else 0
    ensures Execute(env, op, 0, s, 0) != Execute(env, op, 4, s, 0)
  {
    DifferentMemories(Execute(env, op, 0, s, 0), Execute(env, op, 4, s, 0));
  }

  // ----- where one instruction continues -----

  lemma ExecuteContinues(env: Env, op: cell, arg: cell, s: State, codesize: nat)
    requires OthersFallThrough(env) && !RegisterControlled(op) && LayoutOf(op).Some?
    requires op != SWITCH && Execute(env, op, arg, s, codesize).Running?
    ensures var t := Execute(env, op, arg, s, codesize).s;
      match LayoutOf(op).value
      case Plain => t.cip == s.cip
      case Target => t.cip == s.cip || t.cip == JumpTarget(env.base, arg)
      case Two => t.cip == s.cip + CELL
      case Bytes => t.cip == s.cip + arg
      case Table => false
      case _ => t.cip == s.cip || (op == JREL && t.cip == s.cip + arg)
  {
  }

  /** `r` is the target in record `k` of the records that begin at `first`. */
  predicate TargetOf(code: seq<cell>, first: int, k: nat, r: cell) {
    InCode(code, first + CELL * (2 * k + 1)) && r == At(code, first + CELL * (2 * k + 1))
  }

  lemma {:induction false} SelectedCase(code: seq<cell>, first: int, count: int, pri: cell, default: cell)
    requires SelectCase(code, first, count, pri, default).Some?
    ensures var r := SelectCase(code, first, count, pri, default).value;
      r == default || exists k: nat :: k < count && TargetOf(code, first, k, r)
    decreases count
  {
    hide At, InCode, TargetOf;
    if count > 0 {
      var r := SelectCase(code, first, count, pri, default).value;
      if At(code, first) == pri {
        FirstTarget(code, first, r);
      } else {
        SelectedCase(code, first + 2 * CELL, count - 1, pri, default);
        if r != default {
          var k: nat :| k < count - 1 && TargetOf(code, first + 2 * CELL, k, r);
          NextTarget(code, first, k, r);
        }
      }
    }
  }

  lemma FirstTarget(code: seq<cell>, first: int, r: cell)
    requires InCode(code, first + CELL) && r == At(code, first + CELL)
    ensures TargetOf(code, first, 0, r)
  {
  }

  lemma NextTarget(code: seq<cell>, first: int, k: nat, r: cell)
    requires TargetOf(code, first + 2 * CELL, k, r)
    ensures TargetOf(code, first, k + 1, r)
  {
  }

  lemma SlotRelocated(code: seq<cell>, base: int, hook: Hook, i: nat, k: nat)
    requires Browsable(code, 0) && i < |code| && Boundary(code, i) && k < |code| && SlotOf(code, i, k)
    ensures Browsed(code, base, hook, 0)[k] == Wrap(code[k] + base)
  {
    hide Browsed, Browsable, Boundary, Wrap, Reaches;
    InstructionWhole(code, i);
    BrowsedInstruction(code, base, hook, i);
  }

  /** A relocated jump operand leads to the instruction that the original operand names. */
  lemma SlotLands(code: seq<cell>, base: int, hook: Hook, i: nat, k: nat)
    requires Browsable(code, 0) && ClosedJumps(code)
    requires i < |code| && Boundary(code, i) && k < |code| && SlotOf(code, i, k)
    ensures var out := Browsed(code, base, hook, 0);
      JumpTarget(base, out[k]) == code[k] && OffsetOf(out, code[k])
  {
    hide Browsed, Browsable, Rewritten, Wrap, JumpTarget;
    SlotRelocated(code, base, hook, i, k);
    assert NamesInstruction(code, code[k]);
    TargetRelocated(base, code[k]);
    BoundaryKept(code, base, hook, 0, code[k] / CELL);
  }

  /** Where an instruction at cell `i` continues, in terms of the layout that the loader uses. */
  lemma StepContinues(env: Env, out: seq<cell>, s: State, i: nat)
    requires OthersFallThrough(env) && s.cip == CELL * i && i < |out| && LayoutOf(out[i]).Some? && Fits(out, i)
    requires !RegisterControlled(out[i]) && out[i] != SWITCH && Step(env, out, s).Running?
    ensures var t := Step(env, out, s).s;
      || t.cip == CELL * (i + Length(out, i))
      || (LayoutOf(out[i]) == Some(Target) && t.cip == JumpTarget(env.base, out[i+1]))
      || (out[i] == JREL && t.cip == CELL * (i + 2) + out[i+1])
  {
    hide Execute, OthersFallThrough;
    assert At(out, s.cip) == out[i];
    if LayoutOf(out[i]) == Some(Plain) {
      ExecuteContinues(env, out[i], 0, s.(cip := s.cip + CELL), CELL * |out|);
    } else {
      assert At(out, s.cip + CELL) == out[i+1];
      ExecuteContinues(env, out[i], out[i+1], s.(cip := s.cip + 2 * CELL), CELL * |out|);
    }
  }

  /** A case table at cell `j`: the selected operand is one of its records'. */
  lemma TableSelects(out: seq<cell>, j: nat, pri: cell)
    requires j + 2 < |out| && SelectCase(out, CELL * (j + 3), out[j+1], pri, out[j+2]).Some?
    ensures exists k: nat :: (k == 0 || k <= out[j+1]) && j + 2 + 2 * k < |out|
                        && SelectCase(out, CELL * (j + 3), out[j+1], pri, out[j+2]).value == out[j + 2 + 2 * k]
  {
    var first := CELL * (j + 3);
    SelectedCase(out, first, out[j+1], pri, out[j+2]);
    var r := SelectCase(out, first, out[j+1], pri, out[j+2]).value;
    if r == out[j+2] {
      assert r == out[j + 2 + 2 * 0];
    } else {
      var k: nat :| k < out[j+1] && TargetOf(out, first, k, r);
      assert first + CELL * (2 * k + 1) == CELL * (j + 2 + 2 * (k + 1));
      assert r == out[j + 2 + 2 * (k + 1)];
    }
  }

  /** The case table that a SWITCH names. */
  lemma SwitchTable(code: seq<cell>, base: int, hook: Hook, i: nat) returns (j: nat)
    requires Browsable(code, 0) && ClosedJumps(code)
    requires i + 1 < |code| && Boundary(code, i) && code[i] == SWITCH
    ensures j < |code| && Boundary(code, j) && code[j] == CASETBL && Fits(code, j)
    ensures var out := Browsed(code, base, hook, 0);
      JumpTarget(base, out[i+1]) == CELL * j && out[j+1] == code[j+1]
  {
    SlotLands(code, base, hook, i, i + 1);
    assert NamesTable(code, code[i+1]);
    j := code[i+1] / CELL;
    InstructionWhole(code, j);
    BrowsedInstruction(code, base, hook, j);
  }

  lemma SwitchIs(env: Env, out: seq<cell>, operand: cell, s: State, j: nat)
    requires JumpTarget(env.base, operand) == CELL * j && j + 2 < |out| && ExecSwitch(env, out, operand, s).Running?
    ensures var r := SelectCase(out, CELL * (j + 3), out[j+1], s.pri, out[j+2]);
      r.Some? && ExecSwitch(env, out, operand, s).s.cip == JumpTarget(env.base, r.value)
  {
    assert At(out, CELL * (j + 1)) == out[j+1] && At(out, CELL * (j + 2)) == out[j+2];
  }

  lemma TableSlot(code: seq<cell>, j: nat, k: nat)
    requires j < |code| && code[j] == CASETBL && Fits(code, j) && (k == 0 || k <= code[j+1])
    ensures j + 2 + 2 * k < |code| && SlotOf(code, j, j + 2 + 2 * k)
  {
  }

  lemma SwitchLands(env: Env, code: seq<cell>, hook: Hook, i: nat, s: State, out: seq<cell>)
    requires Browsable(code, 0) && ClosedJumps(code) && out == Browsed(code, env.base, hook, 0)
    requires i + 1 < |code| && Boundary(code, i) && code[i] == SWITCH
    requires ExecSwitch(env, out, out[i+1], s).Running?
    ensures OffsetOf(out, ExecSwitch(env, out, out[i+1], s).s.cip)
  {
    hide *;
    var j := SwitchTable(code, env.base, hook, i);
    TableSlot(code, j, 0);
    SwitchIs(env, out, out[i+1], s, j);
    TableSelects(out, j, s.pri);
    var target := SelectCase(out, CELL * (j + 3), out[j+1], s.pri, out[j+2]).value;
    var k: nat :| (k == 0 || k <= out[j+1]) && j + 2 + 2 * k < |out| && target == out[j + 2 + 2 * k];
    TableSlot(code, j, k);
    SlotLands(code, env.base, hook, j, j + 2 + 2 * k);
  }

  lemma FallThrough(out: seq<cell>, i: nat)
    requires Boundary(out, i) && i < |out| && LayoutOf(out[i]).Some? && Fits(out, i)
    ensures OffsetOf(out, CELL * (i + Length(out, i)))
  {
    BoundaryNext(out, 0, i);
  }

  /** Fall-through, jumps, calls and SWITCH from an instruction that the loader visited
      continue at one that it visited. */
  lemma LandsOnBoundary(env: Env, code: seq<cell>, hook: Hook, s: State, out: seq<cell>)
    requires Browsable(code, 0) && ClosedJumps(code) && OthersFallThrough(env)
    requires out == Browsed(code, env.base, hook, 0)
    requires OffsetOf(out, s.cip) && InCode(out, s.cip) && !RegisterControlled(At(out, s.cip)) && Step(env, out, s).Running?
    ensures OffsetOf(out, Step(env, out, s).s.cip)
  {
    var i := s.cip / CELL;
    BoundaryOrigin(code, env.base, hook, 0, i);
    if Boundary(code, i) {
      OriginalLands(env, code, hook, i, s, out);
    } else {
      NopAt(code, env.base, hook, i - 1, out);
      StepContinues(env, out, s, i);
      FallThrough(out, i);
    }
  }

  lemma OriginalLands(env: Env, code: seq<cell>, hook: Hook, i: nat, s: State, out: seq<cell>)
    requires Browsable(code, 0) && ClosedJumps(code) && OthersFallThrough(env)
    requires out == Browsed(code, env.base, hook, 0) && i < |code| && s.cip == CELL * i && Boundary(code, i) && Boundary(out, i)
    requires !RegisterControlled(out[i]) && Step(env, out, s).Running?
    ensures OffsetOf(out, Step(env, out, s).s.cip)
  {
    hide Step, Browsed, Reaches, Browsable, OffsetOf, OthersFallThrough, ClosedJumps;
    InstructionWhole(code, i);
    InstructionKept(code, env.base, hook, i);
    if out[i] == SWITCH {
      StepSwitch(env, out, s, i);
      SwitchLands(env, code, hook, i, s, out);
    } else {
      StepContinues(env, out, s, i);
      FallThrough(out, i);
      if LayoutOf(out[i]) == Some(Target) {
        SlotLands(code, env.base, hook, i, i + 1);
      } else if out[i] == JREL {
        RelativeLands(code, env.base, hook, i, out);
      }
    }
  }

  lemma StepSwitch(env: Env, out: seq<cell>, s: State, i: nat)
    requires s.cip == CELL * i && i < |out| && out[i] == SWITCH && Fits(out, i)
    ensures Step(env, out, s) == ExecSwitch(env, out, out[i+1], s)
  {
    assert At(out, s.cip) == out[i] && At(out, s.cip + CELL) == out[i+1];
  }

  lemma RelativeLands(code: seq<cell>, base: int, hook: Hook, i: nat, out: seq<cell>)
    requires Browsable(code, 0) && ClosedJumps(code) && out == Browsed(code, base, hook, 0)
    requires i + 1 < |code| && Boundary(code, i) && code[i] == JREL
    ensures OffsetOf(out, CELL * (i + 2) + out[i+1])
  {
    hide Browsed, Browsable;
    InstructionWhole(code, i);
    InstructionKept(code, base, hook, i);
    BrowsedInstruction(code, base, hook, i);
    assert out[i+1] == code[i+1];
    BoundaryKept(code, base, hook, 0, (CELL * (i + 2) + code[i+1]) / CELL);
  }

  lemma {:induction false} InstructionFrom(code: seq<cell>, i: nat, j: nat)
    requires Browsable(code, i) && Reaches(code, i, j) && j < |code|
    ensures LayoutOf(code[j]).Some? && Fits(code, j)
    decreases |code| - i
  {
    if i < j { InstructionFrom(code, i + Length(code, i), j); }
  }

  lemma InstructionWhole(code: seq<cell>, i: nat)
    requires Browsable(code, 0) && Boundary(code, i) && i < |code|
    ensures LayoutOf(code[i]).Some? && Fits(code, i)
  {
    InstructionFrom(code, 0, i);
  }

  lemma NopAt(code: seq<cell>, base: int, hook: Hook, i: nat, out: seq<cell>)
    requires Browsable(code, 0) && PatchedAt(code, hook, i) && out == Browsed(code, base, hook, 0)
    ensures i + 1 < |out| && out[i+1] == NOP && Boundary(out, i) && Boundary(out, i + 1)
    ensures Fits(out, i) && Fits(out, i + 1)
  {
    InstructionKept(code, base, hook, i);
    BoundaryKept(code, base, hook, 0, i);
    BoundaryNext(out, 0, i);
  }
}

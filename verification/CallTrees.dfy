/**
  Control flow over whole runs: calls and returns together with everything between them
  (amx.cpp, `amx_Exec` on code that `amx_BrowseRelocate` has prepared).
*/
module CallTrees {
  import opened Pawn
  import opened Wrappers
  import opened Relocation
  import opened ControlFlow
  import opened CallingConvention

  /** No instruction of the run jumps to an address in a register. */
  predicate NoComputedJump(env: Env, code: seq<cell>, a: Activity, s: State)
    requires Perform(env, code, a, s).Some?
  {
    match a
    case Done => true
    case Other(rest) => At(code, s.cip) != JUMP_PRI && NoComputedJump(env, code, rest, Step(env, code, s).s)
    case Call(body, rest) =>
      var inside := Enter(env, code, s).value;
      var back := StepOn(env, code, RETN, Perform(env, code, body, inside).value).value;
      NoComputedJump(env, code, body, inside) && NoComputedJump(env, code, rest, back)
  }

  /** Every instruction of the run, at any depth, is one that the loader visited, and so is the
      one where the run ends. */
  ghost predicate OnlyBoundaries(env: Env, code: seq<cell>, a: Activity, s: State)
    requires Perform(env, code, a, s).Some?
  {
    OffsetOf(code, s.cip) &&
    match a
    case Done => true
    case Other(rest) => OnlyBoundaries(env, code, rest, Step(env, code, s).s)
    case Call(body, rest) =>
      var inside := Enter(env, code, s).value;
      var back := StepOn(env, code, RETN, Perform(env, code, body, inside).value).value;
      && OffsetOf(code, StepOn(env, code, CALL, s).value.cip)
      && OnlyBoundaries(env, code, body, inside) && OnlyBoundaries(env, code, rest, back)
  }

  /** What follows a CALL that the loader visited is an instruction that it visited. */
  lemma BehindCall(code: seq<cell>, base: int, hook: Hook, offset: int, out: seq<cell>)
    requires Browsable(code, 0) && out == Browsed(code, base, hook, 0)
    requires OffsetOf(out, offset) && InCode(out, offset) && At(out, offset) == CALL
    ensures OffsetOf(out, offset + 2 * CELL)
  {
    hide Browsed, Browsable, Reaches;
    var i := offset / CELL;
    BoundaryOrigin(code, base, hook, 0, i);
    if !Boundary(code, i) { NopAt(code, base, hook, i - 1, out); }
    InstructionWhole(code, i);
    InstructionKept(code, base, hook, i);
    FallThrough(out, i);
  }

  /** CALL and the PROC of the callee. */
  lemma EnterLands(env: Env, code: seq<cell>, hook: Hook, s: State, out: seq<cell>)
    requires Browsable(code, 0) && ClosedJumps(code) && OthersFallThrough(env) && out == Browsed(code, env.base, hook, 0)
    requires OffsetOf(out, s.cip) && Enter(env, out, s).Some?
    ensures InCode(out, s.cip) && At(out, s.cip) == CALL
    ensures OffsetOf(out, StepOn(env, out, CALL, s).value.cip) && OffsetOf(out, Enter(env, out, s).value.cip)
  {
    hide Browsed, Browsable, Step, OffsetOf, OthersFallThrough, ClosedJumps;
    LandsOnBoundary(env, code, hook, s, out);
    LandsOnBoundary(env, code, hook, StepOn(env, out, CALL, s).value, out);
  }

  /** A run of any call depth on prepared code, begun at an instruction that the loader visited,
      never leaves these instructions: not by a jump, not by a call and not by RETN. */
  lemma {:induction false} RunKeepsBoundaries(env: Env, code: seq<cell>, hook: Hook, a: Activity, s: State, saved: set<int>, out: seq<cell>)
    requires Browsable(code, 0) && ClosedJumps(code) && OthersFallThrough(env) && OthersKeepFrame(env)
    requires out == Browsed(code, env.base, hook, 0) && CELL * |out| < 0x8000_0000
    requires OffsetOf(out, s.cip) && Perform(env, out, a, s).Some?
    requires Disciplined(env, out, a, s, saved) && NoComputedJump(env, out, a, s)
    requires forall x <- saved :: x in s.mem && s.frm <= x
    ensures OnlyBoundaries(env, out, a, s)
    decreases a
  {
    hide Browsed, Browsable, Step, OffsetOf, OthersFallThrough, ClosedJumps, OthersKeepFrame, Enter;
    match a
    case Done =>
    case Other(rest) =>
      OtherKeepsFrame(env, out, s);
      LandsOnBoundary(env, code, hook, s, out);
      RunKeepsBoundaries(env, code, hook, rest, Step(env, out, s).s, saved, out);
    case Call(body, rest) =>
      EnterLands(env, code, hook, s, out);
      BehindCall(code, env.base, hook, s.cip, out);
      Entered(env, out, s);
      RunKeepsBoundaries(env, code, hook, body, Enter(env, out, s).value, saved + SavedCells(s), out);
      var back := CallRestores(env, out, body, rest, s, saved);
      RunKeepsBoundaries(env, code, hook, rest, back, saved, out);
  }
}

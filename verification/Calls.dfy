/**
  The calling convention (amx.cpp, the CALL, PROC and RETN cases of `amx_Exec`).

  A caller pushes the arguments and their byte count and executes CALL, which pushes the
  return address; PROC pushes the caller's frame; RETN undoes all of it.  An `Activity` is the
  call tree of a run: which instructions are calls, and what happens inside them.
*/
module CallingConvention {
  import opened Pawn
  import opened Wrappers

  datatype Activity = Done | Other(rest: Activity) | Call(body: Activity, rest: Activity)

  predicate ChangesFrame(op: cell) {
    op in {CALL, CALL_PRI, PROC, RET, RETN, SCTRL}
  }

  /** The instructions that the model leaves open keep `frm`; only SCTRL can set it. */
  ghost predicate OthersKeepFrame(env: Env) {
    forall op, arg, s :: op != SCTRL && env.other(op, arg, s).Running? ==> env.other(op, arg, s).s.frm == s.frm
  }

  function StepOn(env: Env, code: seq<cell>, op: cell, s: State): Option<State> {
    if InCode(code, s.cip) && At(code, s.cip) == op && Step(env, code, s).Running? then Some(Step(env, code, s).s) else None
  }

  /** CALL, then the PROC of the callee. */
  function Enter(env: Env, code: seq<cell>, s: State): Option<State> {
    match StepOn(env, code, CALL, s)
    case None => None
    case Some(u) => StepOn(env, code, PROC, u)
  }

  /** The state after a run with the given call tree; None when the run has another one. */
  function Perform(env: Env, code: seq<cell>, a: Activity, s: State): Option<State> {
    match a
    case Done => Some(s)
    case Other(rest) =>
      if InCode(code, s.cip) && !ChangesFrame(At(code, s.cip)) && Step(env, code, s).Running?
      then Perform(env, code, rest, Step(env, code, s).s) else None
    case Call(body, rest) =>
      match Enter(env, code, s)
      case None => None
      case Some(inside) =>
        match Perform(env, code, body, inside)
        case None => None
        case Some(last) =>
          match StepOn(env, code, RETN, last)
          case None => None
          case Some(back) => Perform(env, code, rest, back)
  }

  predicate Kept(before: Memory, after: Memory, saved: set<int>) {
    forall a <- saved :: a in before && a in after && after[a] == before[a]
  }

  /** The cells that a call saves: the caller's frame, the return address and the byte count. */
  function SavedCells(s: State): set<int> {
    {s.stk - 2 * CELL, s.stk - CELL, s.stk as int}
  }

  /** What the compiler guarantees of a run, given the saved cells of the active calls: no
      instruction overwrites them, a call is made with the stack at or below the frame and
      inside the data segment, and a body returns with the stack at its own frame. */
  predicate Disciplined(env: Env, code: seq<cell>, a: Activity, s: State, saved: set<int>)
    requires Perform(env, code, a, s).Some?
  {
    match a
    case Done => true
    case Other(rest) =>
      var u := Step(env, code, s).s;
      Kept(s.mem, u.mem, saved) && Disciplined(env, code, rest, u, saved)
    case Call(body, rest) =>
      var inside := Enter(env, code, s).value;
      var last := Perform(env, code, body, inside).value;
      var back := StepOn(env, code, RETN, last).value;
      && 2 * CELL <= s.stk <= s.frm && s.stk in s.mem
      && Disciplined(env, code, body, inside, saved + SavedCells(s))
      && last.stk == inside.frm
      && Disciplined(env, code, rest, back, saved)
  }

  lemma OtherKeepsFrame(env: Env, code: seq<cell>, s: State)
    requires OthersKeepFrame(env) && InCode(code, s.cip) && !ChangesFrame(At(code, s.cip)) && Step(env, code, s).Running?
    ensures Step(env, code, s).s.frm == s.frm
  {
  }

  /** What CALL and PROC leave behind. */
  lemma Entered(env: Env, code: seq<cell>, s: State)
    requires CELL * |code| < 0x8000_0000 && Enter(env, code, s).Some? && 2 * CELL <= s.stk
    ensures var inside := Enter(env, code, s).value;
      && inside.frm == inside.stk == s.stk - 2 * CELL
      && s.stk - CELL in s.mem && s.stk - 2 * CELL in s.mem
      && inside.mem == s.mem[s.stk - CELL := s.cip + 2 * CELL][s.stk - 2 * CELL := s.frm]
  {
    assert At(code, s.cip) == CALL;
  }

  /** What RETN does when the stack is at the frame. */
  lemma Returned(env: Env, code: seq<cell>, s: State)
    requires StepOn(env, code, RETN, s).Some? && s.stk as int + 2 * CELL < 0x8000_0000
    ensures var back := StepOn(env, code, RETN, s).value;
      && s.stk as int in s.mem && s.stk + CELL in s.mem && s.stk + 2 * CELL in s.mem
      && back.frm == s.mem[s.stk] && back.cip == s.mem[s.stk + CELL]
      && back.stk == Wrap(s.stk + 2 * CELL + s.mem[s.stk + 2 * CELL] + CELL) && back.mem == s.mem
  {
  }

  /** At any depth of calls, a run keeps the frame and the saved cells of the active calls. */
  lemma {:induction false} RunKeepsFrame(env: Env, code: seq<cell>, a: Activity, s: State, saved: set<int>)
    requires CELL * |code| < 0x8000_0000 && OthersKeepFrame(env)
    requires Perform(env, code, a, s).Some? && Disciplined(env, code, a, s, saved)
    requires forall x <- saved :: x in s.mem && s.frm <= x
    ensures var t := Perform(env, code, a, s).value; t.frm == s.frm && Kept(s.mem, t.mem, saved)
    decreases a, 0
  {
    hide Step;
    match a
    case Done =>
    case Other(rest) =>
      OtherKeepsFrame(env, code, s);
      RunKeepsFrame(env, code, rest, Step(env, code, s).s, saved);
    case Call(body, rest) =>
      var back := CallRestores(env, code, body, rest, s, saved);
      RunKeepsFrame(env, code, rest, back, saved);
  }

  /** A call restores the caller's frame, resumes after the operand of CALL and removes the
      arguments, whose byte count is on top of the stack when the call is made. */
  lemma {:induction false} CallRestores(env: Env, code: seq<cell>, body: Activity, rest: Activity, s: State, saved: set<int>)
    returns (back: State)
    requires CELL * |code| < 0x8000_0000 && OthersKeepFrame(env)
    requires Perform(env, code, Call(body, rest), s).Some? && Disciplined(env, code, Call(body, rest), s, saved)
    requires forall x <- saved :: x in s.mem && s.frm <= x
    ensures StepOn(env, code, RETN, Perform(env, code, body, Enter(env, code, s).value).value) == Some(back)
    ensures s.stk as int in s.mem
    ensures back.frm == s.frm && back.cip == s.cip + 2 * CELL && back.stk == Wrap(s.stk + s.mem[s.stk] + CELL)
    ensures Kept(s.mem, back.mem, saved + {s.stk as int})
    decreases body, 1
  {
    hide Step;
    var inside := Enter(env, code, s).value;
    var last := Perform(env, code, body, inside).value;
    Entered(env, code, s);
    RunKeepsFrame(env, code, body, inside, saved + SavedCells(s));
    back := StepOn(env, code, RETN, last).value;
    Returned(env, code, last);
  }

  // ----- with the arguments -----

  /** PUSH for every argument, then PUSH.C with their byte count. */
  function PushArguments(s: State, args: seq<cell>): Outcome
    decreases |args|
  {
    if args == [] then Running(s) else
      match Push(s, args[0])
      case Running(t) => PushArguments(t, args[1..])
      case o => o
  }

  lemma {:induction false} ArgumentsPushed(s: State, args: seq<cell>)
    requires PushArguments(s, args).Running?
    ensures var t := PushArguments(s, args).s;
      t.stk == Wrap(s.stk - CELL * |args|) && t.frm == s.frm && t.mem.Keys == s.mem.Keys && t.cip == s.cip
    decreases |args|
  {
    if args == [] {
      assert Wrap(s.stk as int) == s.stk;
    } else {
      var t := Push(s, args[0]).s;
      ArgumentsPushed(t, args[1..]);
      WrapSum(s.stk - CELL, - CELL * |args[1..]|);
    }
  }

  /** Seen from before the arguments are pushed, a call leaves `stk` and `frm` as they were,
      for every number of arguments and every call tree inside the callee. */
  lemma CallIsNeutral(env: Env, code: seq<cell>, body: Activity, s: State, args: seq<cell>, s': State, saved: set<int>)
    returns (back: State)
    requires CELL * |code| < 0x8000_0000 && OthersKeepFrame(env) && CELL * |args| < 0x8000_0000
    requires PushArguments(s, args).Running? && Push(PushArguments(s, args).s, CELL * |args|).Running?
    requires s' == Push(PushArguments(s, args).s, CELL * |args|).s.(cip := s'.cip)
    requires Perform(env, code, Call(body, Done), s').Some? && Disciplined(env, code, Call(body, Done), s', saved)
    requires forall x <- saved :: x in s'.mem && s'.frm <= x
    ensures Perform(env, code, Call(body, Done), s') == Some(back)
    ensures back.stk == s.stk && back.frm == s.frm && back.cip == s'.cip + 2 * CELL && Kept(s'.mem, back.mem, saved)
  {
    hide Step, Disciplined, Kept, Wrap, PushArguments;
    ArgumentsPushed(s, args);
    back := CallRestores(env, code, body, Done, s', saved);
    PopsWhatWasPushed(s.stk, CELL * |args|);
    KeptSubset(s'.mem, back.mem, saved, saved + {s'.stk as int});
  }

  lemma PopsWhatWasPushed(stk: cell, n: int)
    requires 0 <= n < 0x8000_0000
    ensures Wrap(n) == n && Wrap(Wrap(Wrap(stk - n) - CELL) + n + CELL) == stk
  {
  }

  lemma KeptSubset(before: Memory, after: Memory, fewer: set<int>, more: set<int>)
    requires fewer <= more && Kept(before, after, more)
    ensures Kept(before, after, fewer)
  {
  }

  /** The smallest call there is, as an example of the discipline: a callee without a body. */
  lemma SmallestCall(env: Env) returns (code: seq<cell>, s: State, back: State)
    requires env.base == 0
    ensures Perform(env, code, Call(Done, Done), s) == Some(back) && Disciplined(env, code, Call(Done, Done), s, {})
    ensures s.stk in s.mem && s.mem[s.stk] == 0 && back.stk == s.stk + CELL
  {
    code := [CALL, 8, PROC, RETN];
    s := State(0, 0, 100, 100, 0, 0, map[92 := 0, 96 := 0, 100 := 0]);
    var called := s.(stk := 96, cip := 8, mem := s.mem[96 := 8]);
    assert StepOn(env, code, CALL, s) == Some(called);
    var inside := called.(stk := 92, frm := 92, cip := 12, mem := called.mem[92 := 100]);
    assert StepOn(env, code, PROC, called) == Some(inside);
    back := inside.(stk := 104, frm := 100, cip := 8);
    assert StepOn(env, code, RETN, inside) == Some(back);
  }
}

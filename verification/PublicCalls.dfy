/**
  A whole call of a public function from the host (amx.cpp, `amx_Exec` together with the PROC and
  RETN of the function that it calls).

  `amx_Exec` puts the number of the parameters and a return address of 0 on the stack, and the
  program begins with HALT 0: the function's RETN leads there, and the value that it returns in
  the primary register is what the host gets.
*/
module PublicCalls {
  import opened Pawn
  import opened Wrappers
  import opened HostCalls
  import CallingConvention

  type Activity = CallingConvention.Activity

  /** The cells that the function must not overwrite: the frame, the return address and the number
      of parameters. */
  function SavedCells(r: State): set<int> { {r.stk - CELL, r.stk as int, r.stk + CELL} }

  /** The function at the entry: a PROC, a body with its calls, and a RETN that finds the stack at the
      frame. */
  predicate Function(env: Env, code: seq<cell>, r: State, body: Activity) {
    && CallingConvention.StepOn(env, code, PROC, r).Some?
    && var inside := CallingConvention.StepOn(env, code, PROC, r).value;
    && CallingConvention.Perform(env, code, body, inside).Some?
    && CallingConvention.Disciplined(env, code, body, inside, SavedCells(r))
    && var last := CallingConvention.Perform(env, code, body, inside).value;
    && last.stk == inside.frm && CallingConvention.StepOn(env, code, RETN, last).Some?
  }

  /** The state when the function returns. */
  function LastState(env: Env, code: seq<cell>, r: State, body: Activity): State
    requires Function(env, code, r, body)
  {
    CallingConvention.Perform(env, code, body, CallingConvention.StepOn(env, code, PROC, r).value).value
  }

  /** The number of instructions in a call tree. */
  function Length(a: Activity): nat {
    match a
    case Done => 0
    case Other(rest) => 1 + Length(rest)
    case Call(body, rest) => 3 + Length(body) + Length(rest)
  }

  lemma {:induction false} RunJoins(env: Env, code: seq<cell>, s: State, n: nat, m: nat)
    requires Run(env, code, s, n).Running?
    ensures Run(env, code, s, n + m) == Run(env, code, Run(env, code, s, n).s, m)
    decreases n
  {
    hide Step;
    if n > 0 { RunJoins(env, code, Step(env, code, s).s, n - 1, m); }
  }

  lemma OneStep(env: Env, code: seq<cell>, op: cell, s: State)
    requires CallingConvention.StepOn(env, code, op, s).Some?
    ensures Run(env, code, s, 1) == Running(CallingConvention.StepOn(env, code, op, s).value)
  {
    hide Step;
    NoStep(env, code, CallingConvention.StepOn(env, code, op, s).value);
  }

  lemma NoStep(env: Env, code: seq<cell>, s: State)
    ensures Run(env, code, s, 0) == Running(s)
  {
  }

  /** The call tree describes a run of the machine. */
  lemma {:induction false} PerformIsRun(env: Env, code: seq<cell>, a: Activity, s: State)
    requires CallingConvention.Perform(env, code, a, s).Some?
    ensures Run(env, code, s, Length(a)) == Running(CallingConvention.Perform(env, code, a, s).value)
    decreases a
  {
    hide Step, Run;
    match a
    case Done => NoStep(env, code, s);
    case Other(rest) =>
      OtherStep(env, code, s);
      RunJoins(env, code, s, 1, Length(rest));
      PerformIsRun(env, code, rest, Step(env, code, s).s);
    case Call(body, rest) =>
      var called := CallingConvention.StepOn(env, code, CALL, s).value;
      var inside := CallingConvention.StepOn(env, code, PROC, called).value;
      var last := CallingConvention.Perform(env, code, body, inside).value;
      OneStep(env, code, CALL, s);
      OneStep(env, code, PROC, called);
      OneStep(env, code, RETN, last);
      PerformIsRun(env, code, body, inside);
      PerformIsRun(env, code, rest, CallingConvention.StepOn(env, code, RETN, last).value);
      RunJoins(env, code, s, 1, 1);
      RunJoins(env, code, s, 2, Length(body));
      RunJoins(env, code, s, 2 + Length(body), 1);
      RunJoins(env, code, s, 3 + Length(body), Length(rest));
  }

  lemma OtherStep(env: Env, code: seq<cell>, s: State)
    requires Step(env, code, s).Running?
    ensures Run(env, code, s, 1) == Running(Step(env, code, s).s)
  {
    hide Step;
    NoStep(env, code, Step(env, code, s).s);
  }

  lemma Proceeds(env: Env, code: seq<cell>, r: State)
    requires CallingConvention.StepOn(env, code, PROC, r).Some? && CELL <= r.stk
    ensures var inside := CallingConvention.StepOn(env, code, PROC, r).value;
      && inside.frm == inside.stk == r.stk - CELL && r.stk - CELL in r.mem && inside.mem == r.mem[r.stk - CELL := r.frm]
  {
    assert At(code, r.cip) == PROC;
  }

  /** A function is a run of the machine up to its RETN. */
  lemma FunctionRuns(env: Env, code: seq<cell>, r: State, body: Activity)
    requires Function(env, code, r, body)
    ensures Run(env, code, r, 2 + Length(body)) == Running(CallingConvention.StepOn(env, code, RETN, LastState(env, code, r, body)).value)
  {
    hide Step, Run;
    var inside := CallingConvention.StepOn(env, code, PROC, r).value;
    OneStep(env, code, PROC, r);
    PerformIsRun(env, code, body, inside);
    OneStep(env, code, RETN, LastState(env, code, r, body));
    RunJoins(env, code, r, 1, Length(body));
    RunJoins(env, code, r, 1 + Length(body), 1);
  }

  /** A function that finds a return address of 0 goes there, with its frame gone and its parameters
      removed. */
  lemma FunctionReturns(env: Env, code: seq<cell>, r: State, body: Activity, count: cell) returns (back: State)
    requires CELL * |code| < 0x8000_0000 && CallingConvention.OthersKeepFrame(env) && Function(env, code, r, body)
    requires CELL <= r.stk && r.stk as int + 2 * CELL < 0x8000_0000
    requires r.stk as int in r.mem && r.stk + CELL in r.mem && r.mem[r.stk] == 0 && r.mem[r.stk + CELL] == count
    ensures Run(env, code, r, 2 + Length(body)) == Running(back)
    ensures back.cip == 0 && back.frm == r.frm && back.stk == Wrap(r.stk + 2 * CELL + count)
    ensures var last := LastState(env, code, r, body); back.pri == last.pri && back.mem == last.mem && back.hea == last.hea
  {
    hide Step, Run, Wrap;
    var inside := CallingConvention.StepOn(env, code, PROC, r).value;
    var last := LastState(env, code, r, body);
    back := CallingConvention.StepOn(env, code, RETN, last).value;
    FunctionRuns(env, code, r, body);
    Proceeds(env, code, r);
    CallingConvention.RunKeepsFrame(env, code, body, inside, SavedCells(r));
    CallingConvention.Returned(env, code, last);
    ReturnKeeps(env, code, last);
  }

  lemma ReturnKeeps(env: Env, code: seq<cell>, s: State)
    requires CallingConvention.StepOn(env, code, RETN, s).Some?
    ensures var back := CallingConvention.StepOn(env, code, RETN, s).value; back.pri == s.pri && back.hea == s.hea
  {
  }

  /** The program begins with HALT 0. */
  predicate BeginsWithHalt(code: seq<cell>) { |code| >= 2 && code[0] == HALT && code[1] == ERR_NONE }

  lemma Halts(env: Env, code: seq<cell>, s: State)
    requires BeginsWithHalt(code) && s.cip == 0
    ensures Step(env, code, s) == Stopped(ERR_NONE, s.(cip := 2 * CELL))
  {
    assert At(code, 0) == HALT && At(code, CELL) == ERR_NONE;
  }

  /** What the function finds: no return address, and the number of bytes of its parameters. */
  lemma EntryFrame(m: Machine, cip: int)
    requires 2 * CELL <= m.stk && m.stk - CELL in m.mem && m.stk - 2 * CELL in m.mem && m.paramcount * CELL < 0x8000_0000
    ensures var r := EntryState(m, cip);
      && r.stk == m.stk - 2 * CELL && r.mem == ParametersTaken(m).mem
      && r.stk as int in r.mem && r.stk + CELL in r.mem && r.mem[r.stk] == 0 && r.mem[r.stk + CELL] == m.paramcount * CELL
      && r.frm == 0 && r.hea == m.hea && r.cip == cip
  {
  }

  lemma {:induction false} LastOfEnded(env: Env, code: seq<cell>, s: State, n: nat, m: nat)
    requires Run(env, code, s, n).Running? && !Step(env, code, Run(env, code, s, n).s).Running?
    ensures m <= n ==> Run(env, code, s, m).Running?
    ensures m > n ==> Run(env, code, s, m) == Step(env, code, Run(env, code, s, n).s) && LastOf(env, code, s, m) == Some(Run(env, code, s, n).s)
    decreases n
  {
    hide Step;
    if n > 0 && m > 0 { LastOfEnded(env, code, Step(env, code, s).s, n - 1, m - 1); }
  }

  /** The host calls a public function whose natives call nothing: if the call comes to an end, it ends
      without an error, gives the primary register as it is when the function returns, and leaves
      stack and heap without the parameters. */
  lemma PublicReturns(cfg: Config, m: Machine, index: int, body: Activity, fuel: nat)
    requires Answers(cfg) && CallingConvention.OthersKeepFrame(cfg.env)
    requires BeginsWithHalt(cfg.code) && CELL * |cfg.code| < 0x8000_0000
    requires Refusal(cfg, index, m.stk, m.hea) == ERR_NONE
    requires m.hea + STKMARGIN <= m.stk - 2 * CELL && 3 * CELL <= m.stk
    requires m.stk - CELL in m.mem && m.stk - 2 * CELL in m.mem && m.paramcount * CELL < 0x8000_0000
    requires Function(cfg.env, cfg.code, EntryState(m, EntryPoint(cfg, index).value), body)
    ensures var o := Executed(cfg, m, index, fuel);
      var last := LastState(cfg.env, cfg.code, EntryState(m, EntryPoint(cfg, index).value), body);
      o.status != OutOfFuel ==>
        o.status == Ended(ERR_NONE) && o.retval == last.pri && o.m.mem == last.mem && o.m.stk == Base(m) && o.m.hea == m.hea
  {
    hide Step, Run, Function, LastState, Interpreted, HaltOf, LastOf, Answers, Stored;
    var r := EntryState(m, EntryPoint(cfg, index).value);
    EntryFrame(m, r.cip);
    var back := FunctionReturns(cfg.env, cfg.code, r, body, m.paramcount * CELL);
    Halts(cfg.env, cfg.code, back);
    LastOfEnded(cfg.env, cfg.code, r, 2 + Length(body), fuel);
    InterpretedIsRun(cfg, ParametersTaken(m), r, Wrap(m.stk + m.paramcount * CELL), m.hea, fuel);
    CallConserves(cfg, m, index, fuel);
    ExecutedReturns(cfg, m, index, fuel);
    assert IsAt(cfg, back, HALT) && InCode(cfg.code, back.cip + CELL);
  }
}

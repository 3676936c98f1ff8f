/**
  The optimizer preserves meaning: a run of the optimized code ends as the run of the code
  that calls the float natives.
*/
module Simulation {
  import opened Pawn
  import opened Wrappers
  import opened Optimizer
  import opened Relocation
  import opened ControlFlow

  /** The float natives (float.cpp), in the order of `FLOAT_NAMES`, on their two parameters. */
  function FloatNative(fpu: FloatUnit, k: nat, x: cell, y: cell): cell {
    match k
    case 0 => fpu.mul(x, y)
    case 1 => fpu.div(x, y)
    case 2 => fpu.add(x, y)
    case 3 => fpu.sub(x, y)
    case 4 => fpu.ofInt(x)
    case 5 => RoundNative(fpu, x, y)
    case _ => CompareFloats(fpu, x, y)
  }

  /** `params[1]` and, except for `float`, `params[2]` lie on the stack. */
  predicate ParametersPresent(k: nat, s: State) {
    s.stk + CELL in s.mem && (k != 4 ==> s.stk + 2 * CELL in s.mem)
  }

  function Parameter(s: State, p: nat): cell {
    if s.stk + p * CELL in s.mem then s.mem[s.stk + p * CELL] else 0
  }

  /** The native indices of the optimizer are bound to the float natives. */
  ghost predicate BoundNatives(env: Env, natives: seq<int>)
    requires |natives| == TOTAL_FLOAT_OPS
  {
    forall k: nat, s ::
      k < TOTAL_FLOAT_OPS && natives[k] >= 0 && ParametersPresent(k, s) ==>
        env.native(natives[k], s) ==
          NativeResult(ERR_NONE, FloatNative(env.fpu, k, Parameter(s, 1), Parameter(s, 2)), s.mem)
  }

  /** A call site that the optimizer may replace: a registered native that finds its
      parameters; `floatround` with one of the methods that FLOAT.ROUND knows. */
  predicate SiteOk(natives: seq<int>, index: int, s: State)
    requires |natives| == TOTAL_FLOAT_OPS
  {
    match FloatOp(natives, index)
    case None => true
    case Some(k) => index >= 0 && ParametersPresent(k, s) && (k == 5 ==> 0 <= Parameter(s, 2) <= 2)
  }

  /** FLOAT.ROUND rounds as `floatround` does for exactly the methods 0, 1 and 2. */
  lemma RoundingAgrees(fpu: FloatUnit, how: cell, x: cell)
    requires fpu.nonNegative(x) && fpu.floor(x) != fpu.ceil(x) && fpu.nearest(x) != fpu.ceil(x)
    ensures (forall y :: RoundOpcode(fpu, y, how) == RoundNative(fpu, y, how)) <==> 0 <= how <= 2
  {
    if how < 0 || how > 2 {
      assert RoundOpcode(fpu, x, how) != RoundNative(fpu, x, how);
    }
  }

  // ----- the natives by their names -----

  /** What the float native with a given name computes from its parameters; None for other names. */
  function Meaning(fpu: FloatUnit, name: string, x: cell, y: cell): Option<cell> {
    if name == "floatmul" then Some(fpu.mul(x, y))
    else if name == "floatdiv" then Some(fpu.div(x, y))
    else if name == "floatadd" then Some(fpu.add(x, y))
    else if name == "floatsub" then Some(fpu.sub(x, y))
    else if name == "float" then Some(fpu.ofInt(x))
    else if name == "floatround" then
      Some(if y == 1 || (y == 3 && fpu.nonNegative(x)) then fpu.floor(x)
           else if y == 2 || y == 3 then fpu.ceil(x)
           else fpu.nearest(x))
    else if name == "floatcmp" then
      Some(if fpu.equal(x, y) then 0 else if fpu.greater(x, y) then 1 else -1)
    else None
  }

  /** The program's native table has the float natives under their names. */
  ghost predicate NamedNatives(env: Env, find: string -> Option<int>) {
    forall name, index: int, s ::
      find(name) == Some(index) && Meaning(env.fpu, name, Parameter(s, 1), Parameter(s, 2)).Some?
      && s.stk + CELL in s.mem && (name != "float" ==> s.stk + 2 * CELL in s.mem) ==>
        env.native(index, s) ==
          NativeResult(ERR_NONE, Meaning(env.fpu, name, Parameter(s, 1), Parameter(s, 2)).value, s.mem)
  }

  /** What the optimizer looks up by name are the natives that its instructions replace. */
  lemma SetupBinds(env: Env, level: nat, find: string -> Option<int>, cpu: bool, natives: seq<int>)
    requires |natives| == TOTAL_FLOAT_OPS && forall k :: 0 <= k < TOTAL_FLOAT_OPS ==> natives[k] == Binding(level, find, cpu, k)
    requires NamedNatives(env, find)
    ensures BoundNatives(env, natives)
  {
    forall k: nat, s | k < TOTAL_FLOAT_OPS && natives[k] >= 0 && ParametersPresent(k, s)
      ensures env.native(natives[k], s) ==
        NativeResult(ERR_NONE, FloatNative(env.fpu, k, Parameter(s, 1), Parameter(s, 2)), s.mem)
    {
      NativeByName(env, level, find, cpu, k, s);
    }
  }

  lemma NativeByName(env: Env, level: nat, find: string -> Option<int>, cpu: bool, k: nat, s: State)
    requires k < TOTAL_FLOAT_OPS && NamedNatives(env, find) && ParametersPresent(k, s)
    requires Binding(level, find, cpu, k) >= 0
    ensures env.native(Binding(level, find, cpu, k), s) ==
      NativeResult(ERR_NONE, FloatNative(env.fpu, k, Parameter(s, 1), Parameter(s, 2)), s.mem)
  {
    hide Parameter, BitSet;
    var name := FLOAT_NAMES[k];
    assert find(name) == Some(Binding(level, find, cpu, k));
    assert Meaning(env.fpu, name, Parameter(s, 1), Parameter(s, 2))
        == Some(FloatNative(env.fpu, k, Parameter(s, 1), Parameter(s, 2)));
  }

  // ----- one call site -----

  /** SYSREQ.C of a float native does what the FLOAT instruction and the NOP do. */
  lemma SiteSimulates(env: Env, natives: seq<int>, index: cell, s: State)
    requires |natives| == TOTAL_FLOAT_OPS && BoundNatives(env, natives)
    requires FloatOp(natives, index).Some? && SiteOk(natives, index, s)
    ensures var k := FloatOp(natives, index).value;
      ExecNative(env, index, s) == ExecFloat(env.fpu, OP_TRANS_TABLE[k], s)
      == Running(s.(pri := FloatNative(env.fpu, k, Parameter(s, 1), Parameter(s, 2))))
  {
    var k := FloatOp(natives, index).value;
    assert natives[k] == index;
    assert env.native(natives[k], s) ==
        NativeResult(ERR_NONE, FloatNative(env.fpu, k, Parameter(s, 1), Parameter(s, 2)), s.mem);
  }

  /** Two codes with the same instruction at `cip` take the same step there. */
  lemma SameStep(env: Env, code: seq<cell>, code': seq<cell>, s: State, i: nat)
    requires |code| == |code'| && s.cip == CELL * i && i < |code| && LayoutOf(code[i]).Some? && Fits(code, i)
    requires code[i] == code'[i] && code[i] != SWITCH && (LayoutOf(code[i]) != Some(Plain) ==> code[i+1] == code'[i+1])
    ensures Step(env, code, s) == Step(env, code', s)
  {
    assert At(code, s.cip) == code[i] && At(code', s.cip) == code'[i];
    if LayoutOf(code[i]) != Some(Plain) {
      assert At(code, s.cip + CELL) == code[i+1] && At(code', s.cip + CELL) == code'[i+1];
    }
  }

  lemma {:induction false} SameSelection(code: seq<cell>, code': seq<cell>, i: nat, count: int, pri: cell, default: cell)
    requires |code| == |code'| && (count > 0 ==> i + 2 * count <= |code|)
    requires forall k :: i <= k < |code| && k < i + 2 * count ==> code[k] == code'[k]
    ensures SelectCase(code, CELL * i, count, pri, default) == SelectCase(code', CELL * i, count, pri, default)
    decreases count
  {
    if count > 0 {
      assert At(code, CELL * i) == code[i] && At(code', CELL * i) == code'[i];
      assert At(code, CELL * i + CELL) == code[i+1] && At(code', CELL * i + CELL) == code'[i+1];
      SameSelection(code, code', i + 2, count - 1, pri, default);
      assert CELL * (i + 2) == CELL * i + 2 * CELL;
    }
  }

  /** The optimized code agrees with the plain one on an instruction that is not replaced. */
  lemma SameInstruction(code: seq<cell>, base: int, natives: seq<int>, i: nat, k: nat)
    requires |natives| == TOTAL_FLOAT_OPS && Browsable(code, 0) && Boundary(code, i) && i < |code|
    requires LayoutOf(code[i]).Some? && !Patched(code, Some(natives), i) && i <= k < i + Length(code, i) && k < |code|
    ensures Browsed(code, base, None, 0)[k] == Browsed(code, base, Some(natives), 0)[k]
  {
    BrowsedInstruction(code, base, None, i);
    BrowsedInstruction(code, base, Some(natives), i);
  }

  /** The two codes that are compared: relocated only, and relocated and optimized. */
  function Plainly(env: Env, code: seq<cell>): (r: seq<cell>)
    requires Browsable(code, 0)
    ensures |r| == |code|
  {
    Browsed(code, env.base, None, 0)
  }

  function Optimized(env: Env, code: seq<cell>, natives: seq<int>): (r: seq<cell>)
    requires |natives| == TOTAL_FLOAT_OPS && Browsable(code, 0)
    ensures |r| == |code|
  {
    Browsed(code, env.base, Some(natives), 0)
  }

  lemma SameSwitch(env: Env, code: seq<cell>, natives: seq<int>, i: nat, s: State)
    requires |natives| == TOTAL_FLOAT_OPS && Browsable(code, 0) && ClosedJumps(code)
    requires i + 1 < |code| && Boundary(code, i) && code[i] == SWITCH
    ensures var plain, opt := Plainly(env, code), Optimized(env, code, natives);
      plain[i+1] == opt[i+1] && ExecSwitch(env, plain, plain[i+1], s) == ExecSwitch(env, opt, opt[i+1], s)
  {
    var plain, opt := Plainly(env, code), Optimized(env, code, natives);
    InstructionWhole(code, i);
    SameInstruction(code, env.base, natives, i, i + 1);
    var j := SwitchTable(code, env.base, None, i);
    TableSame(env, code, natives, j, s, plain, opt);
    SwitchFromTable(env, plain, plain[i+1], s, j);
    SwitchFromTable(env, opt, opt[i+1], s, j);
  }

  lemma SwitchFromTable(env: Env, out: seq<cell>, operand: cell, s: State, j: nat)
    requires JumpTarget(env.base, operand) == CELL * j && j + 2 < |out|
    ensures ExecSwitch(env, out, operand, s) ==
      match SelectCase(out, CELL * (j + 3), out[j+1], s.pri, out[j+2])
      case None => Fault
      case Some(target) => Running(s.(cip := JumpTarget(env.base, target)))
  {
    assert At(out, CELL * (j + 1)) == out[j+1] && At(out, CELL * (j + 2)) == out[j+2];
  }

  lemma TableSame(env: Env, code: seq<cell>, natives: seq<int>, j: nat, s: State, plain: seq<cell>, opt: seq<cell>)
    requires |natives| == TOTAL_FLOAT_OPS && Browsable(code, 0)
    requires plain == Plainly(env, code) && opt == Optimized(env, code, natives)
    requires j < |code| && Boundary(code, j) && code[j] == CASETBL && Fits(code, j) && plain[j+1] == code[j+1]
    ensures j + 2 < |code| && plain[j+1] == opt[j+1] && plain[j+2] == opt[j+2]
    ensures SelectCase(plain, CELL * (j + 3), plain[j+1], s.pri, plain[j+2])
         == SelectCase(opt, CELL * (j + 3), opt[j+1], s.pri, opt[j+2])
  {
    forall k | j <= k < j + Length(code, j)
      ensures plain[k] == opt[k]
    {
      SameInstruction(code, env.base, natives, j, k);
    }
    SameSelection(plain, opt, j + 3, code[j+1], s.pri, plain[j+2]);
  }

  /** Where nothing is replaced both codes take the same step. */
  lemma UnpatchedStep(env: Env, code: seq<cell>, natives: seq<int>, i: nat, s: State)
    requires |natives| == TOTAL_FLOAT_OPS && Browsable(code, 0) && ClosedJumps(code)
    requires i < |code| && Boundary(code, i) && s.cip == CELL * i && !Patched(code, Some(natives), i)
    ensures Step(env, Plainly(env, code), s) == Step(env, Optimized(env, code, natives), s)
  {
    hide Step, Browsed, Reaches, Browsable, ClosedJumps, ExecSwitch;
    var plain, opt := Plainly(env, code), Optimized(env, code, natives);
    InstructionWhole(code, i);
    InstructionKept(code, env.base, None, i);
    InstructionKept(code, env.base, Some(natives), i);
    if code[i] == SWITCH {
      StepSwitch(env, plain, s, i);
      StepSwitch(env, opt, s, i);
      SameSwitch(env, code, natives, i, s);
    } else {
      if LayoutOf(code[i]) != Some(Plain) {
        SecondCell(code, i);
        SameInstruction(code, env.base, natives, i, i + 1);
      }
      SameStep(env, plain, opt, s, i);
    }
  }

  lemma SecondCell(code: seq<cell>, i: nat)
    requires i < |code| && LayoutOf(code[i]).Some? && LayoutOf(code[i]) != Some(Plain) && Fits(code, i)
    ensures Length(code, i) >= 2
  {
  }

  /** A replaced call takes one step in the plain code and two in the optimized one. */
  lemma PatchedStep(env: Env, code: seq<cell>, natives: seq<int>, i: nat, s: State)
    requires |natives| == TOTAL_FLOAT_OPS && Browsable(code, 0) && BoundNatives(env, natives)
    requires PatchedAt(code, Some(natives), i) && s.cip == CELL * i && SiteOk(natives, code[i+1], s)
    ensures Step(env, Plainly(env, code), s).Running?
    ensures var first := Step(env, Optimized(env, code, natives), s);
      first.Running? && Step(env, Optimized(env, code, natives), first.s) == Step(env, Plainly(env, code), s)
  {
    hide Step, Browsed, Browsable, Reaches, BoundNatives, ExecFloat, ExecNative;
    var plain, opt := Plainly(env, code), Optimized(env, code, natives);
    InstructionWhole(code, i);
    BrowsedInstruction(code, env.base, None, i);
    InstructionKept(code, env.base, Some(natives), i);
    SiteSimulates(env, natives, code[i+1], s.(cip := s.cip + 2 * CELL));
    SiteSimulates(env, natives, code[i+1], s.(cip := s.cip + CELL));
    CallStep(env, plain, s, i);
    FloatSteps(env, opt, s, i);
  }

  lemma CallStep(env: Env, plain: seq<cell>, s: State, i: nat)
    requires s.cip == CELL * i && i + 1 < |plain| && plain[i] == SYSREQ_C
    ensures Step(env, plain, s) == ExecNative(env, plain[i+1], s.(cip := s.cip + 2 * CELL))
  {
    assert At(plain, s.cip) == plain[i] && At(plain, s.cip + CELL) == plain[i+1];
  }

  lemma FloatSteps(env: Env, opt: seq<cell>, s: State, i: nat)
    requires s.cip == CELL * i && i + 1 < |opt| && FLOAT_MUL <= opt[i] <= FLOAT_CMP && opt[i+1] == NOP
    ensures Step(env, opt, s) == ExecFloat(env.fpu, opt[i], s.(cip := s.cip + CELL))
    ensures forall t: State :: t.cip == CELL * (i + 1) ==> Step(env, opt, t) == Running(t.(cip := t.cip + CELL))
  {
    assert At(opt, s.cip) == opt[i];
    forall t: State | t.cip == CELL * (i + 1)
      ensures Step(env, opt, t) == Running(t.(cip := t.cip + CELL))
    {
      assert At(opt, t.cip) == opt[i+1];
    }
  }

  // ----- whole runs -----

  /** For `n` steps of the plain code: replaced calls are in order, and the instructions that
      take their next address from a register or the stack find an instruction there. */
  predicate OnTrack(env: Env, code: seq<cell>, natives: seq<int>, s: State, n: nat)
    requires |natives| == TOTAL_FLOAT_OPS && Browsable(code, 0)
    decreases n
  {
    n == 0 || !InCode(code, s.cip) ||
    (&& (PatchedAt(code, Some(natives), s.cip / CELL) ==> SiteOk(natives, code[s.cip / CELL + 1], s))
     && match Step(env, Plainly(env, code), s)
        case Running(t) =>
          (RegisterControlled(At(code, s.cip)) ==> OffsetOf(code, t.cip)) && OnTrack(env, code, natives, t, n - 1)
        case _ => true)
  }

  ghost predicate StaysOnTrack(env: Env, code: seq<cell>, natives: seq<int>, s: State)
    requires |natives| == TOTAL_FLOAT_OPS && Browsable(code, 0)
  {
    forall n :: OnTrack(env, code, natives, s, n)
  }

  lemma StaysOnBoundary(env: Env, code: seq<cell>, s: State)
    requires Browsable(code, 0) && ClosedJumps(code) && OthersFallThrough(env)
    requires OffsetOf(code, s.cip) && InCode(code, s.cip) && Step(env, Plainly(env, code), s).Running?
    requires RegisterControlled(At(code, s.cip)) ==> OffsetOf(code, Step(env, Plainly(env, code), s).s.cip)
    ensures OffsetOf(code, Step(env, Plainly(env, code), s).s.cip)
  {
    hide Step, Browsed, Browsable, ClosedJumps, Reaches;
    var plain := Plainly(env, code);
    var i := s.cip / CELL;
    InstructionWhole(code, i);
    InstructionKept(code, env.base, None, i);
    if !RegisterControlled(At(code, s.cip)) {
      BeginningBoundary(code);
      BoundaryKept(code, env.base, None, 0, i);
      LandsOnBoundary(env, code, None, s, plain);
      BoundaryOrigin(code, env.base, None, 0, Step(env, plain, s).s.cip / CELL);
    }
  }

  /** Every state that the plain code reaches is reached by the optimized code, and every way
      of ending: `m` steps of the optimized code do what `n` steps of the plain code do. */
  lemma {:induction false} OptimizedSimulates(env: Env, code: seq<cell>, natives: seq<int>, s: State, n: nat) returns (m: nat)
    requires |natives| == TOTAL_FLOAT_OPS && Browsable(code, 0) && ClosedJumps(code)
    requires OthersFallThrough(env) && BoundNatives(env, natives)
    requires OffsetOf(code, s.cip) && OnTrack(env, code, natives, s, n)
    ensures n <= m <= 2 * n && Run(env, Optimized(env, code, natives), s, m) == Run(env, Plainly(env, code), s, n)
    decreases n
  {
    hide Step, Browsed, Browsable, ClosedJumps, Reaches, BoundNatives, OthersFallThrough, SiteOk;
    var plain, opt := Plainly(env, code), Optimized(env, code, natives);
    m := n;
    if n > 0 {
      if !InCode(code, s.cip) {
        OutsideFaults(env, plain, s);
        OutsideFaults(env, opt, s);
      } else {
        var i := s.cip / CELL;
        var o := Step(env, plain, s);
        if o.Running? {
          StaysOnBoundary(env, code, s);
          m := OptimizedSimulates(env, code, natives, o.s, n - 1);
        }
        if Patched(code, Some(natives), i) {
          PatchedStep(env, code, natives, i, s);
          m := m + 2;
        } else {
          UnpatchedStep(env, code, natives, i, s);
          m := if o.Running? then m + 1 else n;
        }
      }
    }
  }

  lemma OutsideFaults(env: Env, code: seq<cell>, s: State)
    requires !InCode(code, s.cip)
    ensures Step(env, code, s) == Fault
  {
  }

  /** A run that has ended stays ended. */
  lemma {:induction false} RunEnded(env: Env, code: seq<cell>, s: State, n: nat, m: nat)
    requires n <= m && !Run(env, code, s, n).Running?
    ensures Run(env, code, s, m) == Run(env, code, s, n)
    decreases n
  {
    if n > 0 && Step(env, code, s).Running? {
      RunEnded(env, code, Step(env, code, s).s, n - 1, m - 1);
    }
  }

  ghost predicate Ends(env: Env, code: seq<cell>, s: State, o: Outcome) {
    !o.Running? && exists n :: Run(env, code, s, n) == o
  }

  /** The optimized code ends in exactly the ways in which the plain code ends: with the same
      error, registers, memory and next instruction; and it runs on when that one does. */
  lemma OptimizerPreservesMeaning(env: Env, code: seq<cell>, natives: seq<int>, s: State, o: Outcome)
    requires |natives| == TOTAL_FLOAT_OPS && Browsable(code, 0) && ClosedJumps(code)
    requires OthersFallThrough(env) && BoundNatives(env, natives)
    requires OffsetOf(code, s.cip) && StaysOnTrack(env, code, natives, s)
    ensures Ends(env, Plainly(env, code), s, o) <==> Ends(env, Optimized(env, code, natives), s, o)
  {
    hide Step, Browsed, Browsable, ClosedJumps, Reaches, BoundNatives, OthersFallThrough, OnTrack, Run;
    var plain, opt := Plainly(env, code), Optimized(env, code, natives);
    if Ends(env, plain, s, o) {
      var n :| Run(env, plain, s, n) == o;
      var m := OptimizedSimulates(env, code, natives, s, n);
    }
    if Ends(env, opt, s, o) {
      var m :| Run(env, opt, s, m) == o;
      var m' := OptimizedSimulates(env, code, natives, s, m);
      RunEnded(env, opt, s, m, m');
      assert Run(env, plain, s, m) == o;
    }
  }

  /** Loading with the optimizer on: looks up the natives, and browses the code. */
  method LoadOptimized(code: array<cell>, base: int, level: nat, find: string -> Option<int>, cpu: bool)
    returns (err: int, natives: array<int>)
    requires Readable(code[..], 0)
    modifies code
    ensures natives.Length == TOTAL_FLOAT_OPS && err == if Browsable(old(code[..]), 0) then ERR_NONE else ERR_INVINSTR
    ensures err == ERR_NONE ==> forall env: Env, s: State, o ::
      env.base == base && NamedNatives(env, find) && OthersFallThrough(env) && ClosedJumps(old(code[..]))
      && OffsetOf(old(code[..]), s.cip) && StaysOnTrack(env, old(code[..]), natives[..], s) ==>
        (Ends(env, Plainly(env, old(code[..])), s, o) <==> Ends(env, code[..], s, o))
  {
    hide Step, Browsed, Browsable, Readable, ClosedJumps, Reaches, OthersFallThrough, StaysOnTrack, Ends, NamedNatives, Binding;
    var level';
    natives, level' := Setup(level, find, cpu);
    ghost var before, bound := code[..], natives[..];
    err := BrowseRelocate(code, base, natives);
    assert natives[..] == bound;
    if err == ERR_NONE {
      forall env: Env, s: State, o |
        env.base == base && NamedNatives(env, find) && OthersFallThrough(env) && ClosedJumps(before)
        && OffsetOf(before, s.cip) && StaysOnTrack(env, before, bound, s)
        ensures Ends(env, Plainly(env, before), s, o) <==> Ends(env, code[..], s, o)
      {
        SetupBinds(env, level, find, cpu, bound);
        OptimizerPreservesMeaning(env, before, bound, s, o);
      }
    }
  }
}

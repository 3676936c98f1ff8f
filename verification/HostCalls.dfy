/**
  Calls from the host into the abstract machine (amx.cpp: `amx_Push`, `amx_Allot`,
  `amx_Release`, `amx_Exec`, `amx_Callback`).

  A native function is host code that can call back into the machine that called it.  What it
  does next is any function of its index, of the number of operations that the host has done
  so far, and of what the machine looks like; the number lets it depend on all that happened
  before.  `fuel` bounds the length and the depth of a run.

  The functions on `Machine` say what every call does, nested calls included; the methods of
  `Amx` are proved equal to them, and the lemmas are about them.
*/
module HostCalls {
  import opened Pawn
  import opened Wrappers

  const EXEC_MAIN := -1
  const EXEC_CONT := -2
  const ERR_CALLBACK := 9
  const ERR_MEMORY := 16
  const ERR_NOTFOUND := 19
  const ERR_INDEX := 20
  const ERR_INIT := 22

  /** `Ended`: by HALT or through ABORT.  `Refused`: an error before the parameters are taken.
      `Bailed`: a return that bypasses ABORT.  */
  datatype Status = Ended(err: int) | Refused(err: int) | Bailed(err: int) | OutOfFuel

  datatype HostOp =
    | Call(args: seq<cell>, index: int)     // amx_Push of every argument, then amx_Exec
    | Allot(cells: int)
    | Release(addr: cell)
    | Write(at: int, data: cell)
    | RaiseError(err: int)
    | ReturnValue(result: cell)

  datatype View = View(pri: cell, alt: cell, frm: cell, stk: cell, hea: cell, mem: Memory)

  type Natives = (int, nat, View) -> HostOp

  /** What does not change: the program and the flags of its AMX structure. */
  datatype Config = Config(
    env: Env, code: seq<cell>, publics: seq<int>, main: int, natives: Natives,
    hasCallback: bool, preInitialized: bool, nativesRegistered: bool, relocated: bool)

  /** What happens to the parameters: one is pushed, a call takes them all, a call is refused;
      and how a call that took them is left. */
  datatype Mark = Pushed | Taken | Turned | Left(status: Status)

  /** The AMX structure; `faulted` tells of a write outside the memory of the machine, `clock`
      counts host operations, `history` records them. */
  datatype Machine = Machine(
    cip: int, frm: cell, hea: cell, stk: cell, pri: cell, alt: cell,
    error: int, paramcount: nat, mem: Memory, faulted: bool, clock: nat, history: seq<Mark>)

  // ----- single operations -----

  function Stored(m: Machine, a: int, v: cell): Machine {
    if a in m.mem then m.(mem := m.mem[a := v]) else m.(faulted := true)
  }

  function PushError(m: Machine): int {
    if m.hea + STKMARGIN > m.stk then ERR_STACKERR else ERR_NONE
  }

  function AfterPush(m: Machine, v: cell): Machine {
    if PushError(m) != ERR_NONE then m
    else
      var a := Wrap(m.stk - CELL);
      Stored(m.(stk := a, paramcount := m.paramcount + 1, history := m.history + [Pushed]), a, v)
  }

  /** Pushes of all arguments, the last one first. */
  function AfterPushes(m: Machine, args: seq<cell>): Machine {
    if args == [] then m else AfterPush(AfterPushes(m, args[1..]), args[0])
  }

  function AllotError(m: Machine, cells: int): int {
    if Unsigned(m.stk - m.hea - cells * CELL) < STKMARGIN then ERR_MEMORY else ERR_NONE
  }

  function Allotted(m: Machine, cells: int): Machine {
    if AllotError(m, cells) != ERR_NONE then m else m.(hea := Wrap(m.hea + cells * CELL))
  }

  function Released(m: Machine, addr: cell): Machine {
    if m.hea > addr then m.(hea := addr) else m
  }

  // ----- whole calls -----

  predicate CallsNative(cfg: Config, s: State) {
    InCode(cfg.code, s.cip) &&
    (At(cfg.code, s.cip) == SYSREQ_PRI || (At(cfg.code, s.cip) == SYSREQ_C && InCode(cfg.code, s.cip + CELL)))
  }

  function NativeIndex(cfg: Config, s: State): int
    requires CallsNative(cfg, s)
  {
    if At(cfg.code, s.cip) == SYSREQ_PRI then s.pri else At(cfg.code, s.cip + CELL)
  }

  function BehindCall(cfg: Config, s: State): State
    requires CallsNative(cfg, s)
  {
    s.(cip := s.cip + if At(cfg.code, s.cip) == SYSREQ_PRI then CELL else 2 * CELL)
  }

  predicate IsAt(cfg: Config, s: State, op: cell) {
    InCode(cfg.code, s.cip) && At(cfg.code, s.cip) == op
  }

  /** Where a call starts, and the error when it is refused. */
  function EntryPoint(cfg: Config, index: int): Option<int> {
    if index == EXEC_MAIN then if cfg.main < 0 then None else Some(cfg.main)
    else if index < 0 || index >= |cfg.publics| then None
    else Some(cfg.publics[index])
  }

  function Refusal(cfg: Config, index: int, stk: int, hea: int): int {
    if !cfg.hasCallback then ERR_CALLBACK
    else if !cfg.preInitialized && !cfg.nativesRegistered then ERR_NOTFOUND
    else if !cfg.relocated then ERR_INIT
    else if EntryPoint(cfg, index) == None then ERR_INDEX
    else if stk > cfg.env.stp then ERR_STACKLOW
    else if hea < cfg.env.hlw then ERR_HEAPLOW
    else ERR_NONE
  }

  /** When a call is not refused. */
  lemma Admitted(cfg: Config, index: int, stk: int, hea: int)
    ensures Refusal(cfg, index, stk, hea) == ERR_NONE <==>
      && cfg.hasCallback && (cfg.preInitialized || cfg.nativesRegistered) && cfg.relocated
      && (if index == -1 then cfg.main >= 0 else 0 <= index < |cfg.publics|)
      && stk <= cfg.env.stp && hea >= cfg.env.hlw
    ensures EntryPoint(cfg, index).Some? ==>
      EntryPoint(cfg, index).value == if index == -1 then cfg.main else cfg.publics[index]
  {
  }

  /** The parameter count and a zero return address are put on the stack. */
  function ParametersTaken(m: Machine): Machine {
    Stored(
      Stored(m.(paramcount := 0, history := m.history + [Taken]), Wrap(m.stk - CELL), Wrap(m.paramcount * CELL)),
      Wrap(m.stk - 2 * CELL), 0)
  }

  function EntryState(m: Machine, cip: int): State {
    State(0, 0, 0, Wrap(m.stk - 2 * CELL), m.hea, cip, ParametersTaken(m).mem)
  }

  /** ABORT */
  function Aborted(m: Machine, resetStk: cell, resetHea: cell, r: State): Machine {
    m.(stk := resetStk, hea := resetHea, cip := r.cip, pri := r.pri, alt := r.alt)
  }

  datatype CallResult = CallResult(m: Machine, status: Status, retval: cell)

  datatype NativeReturn = NativeReturn(m: Machine, done: bool, value: cell)

  function MarkLeft(o: CallResult): CallResult {
    o.(m := o.m.(history := o.m.history + [Left(o.status)]))
  }

  /** The host's way of calling a public function. */
  function Called(cfg: Config, m: Machine, args: seq<cell>, index: int, fuel: nat): CallResult
    decreases fuel, 2
  {
    Executed(cfg, AfterPushes(m, args), index, fuel)
  }

  /** amx_Exec */
  function Executed(cfg: Config, m: Machine, index: int, fuel: nat): CallResult
    decreases fuel, 1
  {
    var refusal := Refusal(cfg, index, m.stk, m.hea);
    if refusal != ERR_NONE then CallResult(m.(history := m.history + [Turned]), Refused(refusal), 0)
    else
      var r := EntryState(m, EntryPoint(cfg, index).value);
      MarkLeft(
        if r.hea + STKMARGIN > r.stk then CallResult(ParametersTaken(m), Bailed(ERR_STACKERR), 0)
        else Interpreted(cfg, ParametersTaken(m), r, Wrap(m.stk + m.paramcount * CELL), m.hea, fuel))
  }

  /** The registers that a native can see. */
  function Saved(m: Machine, t: State): Machine {
    m.(cip := t.cip, hea := t.hea, frm := t.frm, stk := t.stk, pri := t.pri, alt := t.alt, error := ERR_NONE)
  }

  /** A round of the interpreter loop: it goes on, or the call is over. */
  datatype Round = GoesOn(m: Machine, r: State) | Over(o: CallResult)

  /** An instruction that calls no native. */
  function Stepped(cfg: Config, m: Machine, s: State, resetStk: cell, resetHea: cell): Round {
    match Step(cfg.env, cfg.code, s)
    case Running(t) => GoesOn(m.(mem := t.mem, stk := if IsAt(cfg, s, RETN) then t.stk else m.stk), t)
    case Stopped(err, t) =>
      var stopped := Aborted(m.(mem := t.mem), resetStk, resetHea, t);
      Over(if IsAt(cfg, s, HALT) then CallResult(stopped.(frm := t.frm), Ended(err), t.pri) else CallResult(stopped, Ended(err), 0))
    case Returned(err, t) =>
      Over(if IsAt(cfg, s, HALT)
           then CallResult(m.(mem := t.mem, frm := t.frm, pri := t.pri, alt := t.alt, cip := t.cip), Bailed(err), t.pri)
           else CallResult(m.(mem := t.mem), Bailed(err), 0))
    case Fault => Over(CallResult(m.(faulted := true), Bailed(ERR_MEMACCESS), 0))
  }

  /** While the loop goes on it keeps the registers of the structure, except that a RETN stores the
      stack as it is without the frame, the return address and the parameters. */
  lemma SteppedKeeps(cfg: Config, m: Machine, s: State, resetStk: cell, resetHea: cell)
    ensures var o := Stepped(cfg, m, s, resetStk, resetHea);
      o.GoesOn? ==>
        && o.m == m.(mem := o.r.mem, stk := o.m.stk)
        && if IsAt(cfg, s, RETN) then
             var a := Wrap(s.stk + 2 * CELL);
             a as int in s.mem && o.m.stk == Wrap(a + s.mem[a] + CELL)
           else o.m.stk == m.stk
  {
    hide Step, Wrap;
    if IsAt(cfg, s, RETN) { ReturnStep(cfg, s); }
  }

  lemma ReturnStep(cfg: Config, s: State)
    requires IsAt(cfg, s, RETN)
    ensures match Step(cfg.env, cfg.code, s)
      case Running(t) => var a := Wrap(s.stk + 2 * CELL); a as int in s.mem && t.stk == Wrap(a + s.mem[a] + CELL)
      case _ => true
  {
    hide Wrap;
    assert At(cfg.code, s.cip) == RETN;
  }

  /** The interpreter loop, with registers `r` of its own; its memory is that of the machine. */
  function Interpreted(cfg: Config, m: Machine, r: State, resetStk: cell, resetHea: cell, fuel: nat): CallResult
    decreases fuel, 0
  {
    if fuel == 0 then CallResult(m, OutOfFuel, 0) else
      var s := r.(mem := m.mem);
      if CallsNative(cfg, s) then
        var t := BehindCall(cfg, s);
        var n := Ran(cfg, Saved(m, t), NativeIndex(cfg, s), fuel - 1);
        var u := t.(pri := n.value);
        if !n.done then CallResult(n.m, OutOfFuel, 0)
        else if n.m.error == ERR_SLEEP then CallResult(n.m.(pri := u.pri, alt := u.alt), Bailed(ERR_SLEEP), 0)
        else if n.m.error != ERR_NONE then CallResult(Aborted(n.m, resetStk, resetHea, u), Ended(n.m.error), 0)
        else Interpreted(cfg, n.m, u, resetStk, resetHea, fuel - 1)
      else
        match Stepped(cfg, m, s, resetStk, resetHea)
        case GoesOn(next, t) => Interpreted(cfg, next, t, resetStk, resetHea, fuel - 1)
        case Over(o) => o
  }

  function ViewOf(m: Machine): View { View(m.pri, m.alt, m.frm, m.stk, m.hea, m.mem) }

  /** amx_Callback: a native function, with whatever calls it makes into this machine. */
  function Ran(cfg: Config, m: Machine, index: int, fuel: nat): NativeReturn
    decreases fuel, 3
  {
    if fuel == 0 then NativeReturn(m, false, 0) else
      match cfg.natives(index, m.clock, ViewOf(m))
      case ReturnValue(v) => NativeReturn(Ticked(m), true, v)
      case Call(args, entry) =>
        Ran(cfg, if entry == EXEC_CONT then Ticked(m) else Called(cfg, Ticked(m), args, entry, fuel - 1).m, index, fuel - 1)
      case op => Ran(cfg, Simply(Ticked(m), op), index, fuel - 1)
  }

  function Ticked(m: Machine): Machine { m.(clock := m.clock + 1) }

  /** A host operation that runs nothing. */
  function Simply(m: Machine, op: HostOp): Machine {
    match op
    case Allot(cells) => Allotted(m, cells)
    case Release(addr) => Released(m, addr)
    case Write(at, v) => Stored(m, at, v)
    case RaiseError(err) => m.(error := err)
    case _ => m
  }

  lemma TakenKeeps(m: Machine)
    ensures var taken := ParametersTaken(m); taken.stk == m.stk && taken.hea == m.hea
  {
  }

  // ----- what amx_Allot grants -----

  /** The number of bytes that is compared: the product is truncated to 32 bits. */
  function Bytes(cells: int): nat { Unsigned(cells * CELL) }

  /** The check is unsigned.  A block is granted exactly if its truncated size leaves the margin
      free, or is larger than all the free space by enough; the heap moves by the truncated size. */
  lemma AllotGrants(m: Machine, cells: int)
    requires m.hea <= m.stk
    ensures AllotError(m, cells) == ERR_NONE <==>
      var free := m.stk - m.hea;
      Bytes(cells) + STKMARGIN <= free || free < Bytes(cells) <= 0x1_0000_0000 + free - STKMARGIN
    ensures AllotError(m, cells) == ERR_NONE ==> Allotted(m, cells).hea == Wrap(m.hea + Bytes(cells))
  {
    var free := m.stk - m.hea;
    var q := cells * CELL / 0x1_0000_0000;
    assert cells * CELL == q * 0x1_0000_0000 + Bytes(cells);
    assert free - cells * CELL == (free - Bytes(cells)) - q * 0x1_0000_0000;
    Shifts(free - Bytes(cells), q);
    ShiftsWrap(m.hea + Bytes(cells), q);
  }

  lemma Shifts(x: int, q: int)
    requires -0x1_0000_0000 < x < 0x1_0000_0000
    ensures Unsigned(x - q * 0x1_0000_0000) == if x >= 0 then x else x + 0x1_0000_0000
  {
  }

  lemma ShiftsWrap(x: int, q: int)
    ensures Wrap(x + q * 0x1_0000_0000) == Wrap(x)
  {
  }

  /** Releasing a block gives back everything that was allotted from it on. */
  lemma AllotReleased(m: Machine, cells: nat, more: nat)
    requires m.hea + CELL * (cells + more) + STKMARGIN <= m.stk
    ensures AllotError(m, cells) == ERR_NONE && AllotError(Allotted(m, cells), more) == ERR_NONE
    ensures Released(Allotted(Allotted(m, cells), more), m.hea) == m
  {
    var once := Allotted(m, cells);
    assert Unsigned(m.stk - m.hea - cells * CELL) == m.stk - m.hea - cells * CELL;
    assert once.hea == m.hea + cells * CELL;
    assert Unsigned(m.stk - once.hea - more * CELL) == m.stk - once.hea - more * CELL;
  }

  // ----- stack and heap -----

  /** Where the stack is without the parameters that have been pushed. */
  function Base(m: Machine): cell { Wrap(m.stk + CELL * m.paramcount) }

  lemma {:induction false} PushesConserve(m: Machine, args: seq<cell>)
    ensures var p := AfterPushes(m, args);
      Base(p) == Base(m) && p.hea == m.hea && p.mem.Keys == m.mem.Keys && (m.faulted ==> p.faulted)
      && p.clock == m.clock
  {
    if args != [] {
      PushesConserve(m, args[1..]);
      WrapSum(AfterPushes(m, args[1..]).stk - CELL, CELL * (AfterPushes(m, args[1..]).paramcount + 1));
    }
  }

  lemma {:induction false} InterpretedEnds(cfg: Config, m: Machine, r: State, resetStk: cell, resetHea: cell, fuel: nat)
    ensures var o := Interpreted(cfg, m, r, resetStk, resetHea, fuel);
      && !o.status.Refused?
      && (o.status.Ended? ==> o.m.stk == resetStk && o.m.hea == resetHea)
    decreases fuel
  {
    hide Step, Ran;
    if fuel > 0 {
      var s := r.(mem := m.mem);
      if CallsNative(cfg, s) {
        var t := BehindCall(cfg, s);
        var n := Ran(cfg, Saved(m, t), NativeIndex(cfg, s), fuel - 1);
        InterpretedEnds(cfg, n.m, t.(pri := n.value), resetStk, resetHea, fuel - 1);
      } else {
        match Stepped(cfg, m, s, resetStk, resetHea) {
          case GoesOn(next, t) => InterpretedEnds(cfg, next, t, resetStk, resetHea, fuel - 1);
          case Over(_) =>
        }
      }
    }
  }

  /** A call that ends leaves the heap as it was and the stack above the parameters that it took,
      whatever the natives do, re-entering calls included; a refused one changes nothing. */
  lemma CallConserves(cfg: Config, m: Machine, index: int, fuel: nat)
    ensures var o := Executed(cfg, m, index, fuel);
      && (o.status.Ended? ==> o.m.stk == Base(m) && o.m.hea == m.hea)
      && (o.status.Refused? <==> Refusal(cfg, index, m.stk, m.hea) != ERR_NONE)
      && (o.status.Refused? ==>
            o.status.err == Refusal(cfg, index, m.stk, m.hea) && o.m == m.(history := m.history + [Turned]))
  {
    hide Interpreted;
    if Refusal(cfg, index, m.stk, m.hea) == ERR_NONE {
      InterpretedEnds(cfg, ParametersTaken(m), EntryState(m, EntryPoint(cfg, index).value),
        Wrap(m.stk + m.paramcount * CELL), m.hea, fuel);
    }
  }

  // ----- the parameter count -----

  /** The pushes since parameters were last taken. */
  function Leftover(h: seq<Mark>): nat {
    if h == [] then 0
    else match h[|h|-1]
      case Pushed => 1 + Leftover(h[..|h|-1])
      case Taken => 0
      case _ => Leftover(h[..|h|-1])
  }

  predicate Counted(m: Machine) { m.paramcount == Leftover(m.history) }

  lemma LeftoverNext(h: seq<Mark>, x: Mark)
    ensures Leftover(h + [x]) == match x case Pushed => 1 + Leftover(h) case Taken => 0 case _ => Leftover(h)
  {
    assert (h + [x])[..|h|] == h;
  }

  lemma {:induction false} PushesCounted(m: Machine, args: seq<cell>)
    requires Counted(m)
    ensures Counted(AfterPushes(m, args)) && m.history <= AfterPushes(m, args).history
    ensures forall i :: |m.history| <= i < |AfterPushes(m, args).history| ==> AfterPushes(m, args).history[i] == Pushed
  {
    if args != [] {
      PushesCounted(m, args[1..]);
      LeftoverNext(AfterPushes(m, args[1..]).history, Pushed);
    }
  }

  /** Marks of a run in which all calls took their parameters and ended. */
  predicate Clean(x: Mark) { x != Turned && (x.Left? ==> x.status.Ended?) }

  predicate CleanFrom(h: seq<Mark>, k: nat) { forall i :: k <= i < |h| ==> Clean(h[i]) }

  predicate NoneTurned(h: seq<Mark>, k: nat) { forall i :: k <= i < |h| ==> h[i] != Turned }

  /** What a part of a run keeps: the record grows, and it counts the parameters. */
  ghost predicate Recorded(m: Machine, m': Machine) {
    Counted(m') && m.history <= m'.history && (m.faulted ==> m'.faulted)
  }

  /** With no parameters waiting before, none wait after it unless a call is turned away. */
  ghost predicate KeepsCount(m: Machine, m': Machine) {
    m.paramcount == 0 && NoneTurned(m'.history, |m.history|) ==> m'.paramcount == 0
  }

  ghost predicate KeepsStack(m: Machine, m': Machine) {
    m.paramcount == 0 && CleanFrom(m'.history, |m.history|) ==> m'.stk == m.stk
  }

  lemma RecordedTwice(a: Machine, b: Machine, c: Machine)
    requires Recorded(a, b) && Recorded(b, c)
    ensures Recorded(a, c)
    ensures KeepsCount(a, b) && KeepsCount(b, c) ==> KeepsCount(a, c)
    ensures KeepsCount(a, b) && KeepsStack(a, b) && KeepsStack(b, c) ==> KeepsStack(a, c)
  {
    hide Leftover;
    assert forall i :: 0 <= i < |b.history| ==> c.history[i] == b.history[i];
    assert CleanFrom(c.history, |a.history|) ==> CleanFrom(b.history, |a.history|) by {
      assert forall i :: |a.history| <= i < |b.history| && CleanFrom(c.history, |a.history|) ==> Clean(c.history[i]);
    }
    assert NoneTurned(c.history, |a.history|) ==> NoneTurned(b.history, |a.history|);
    assert CleanFrom(b.history, |a.history|) ==> NoneTurned(b.history, |a.history|);
  }

  /** A change of registers and memory only. */
  lemma RecordedNothing(a: Machine, b: Machine)
    requires Counted(a) && b.history == a.history && b.paramcount == a.paramcount && (a.faulted ==> b.faulted)
    ensures Recorded(a, b) && KeepsCount(a, b) && (b.stk == a.stk ==> KeepsStack(a, b))
  {
  }

  lemma {:induction false} CalledRecorded(cfg: Config, m: Machine, args: seq<cell>, index: int, fuel: nat)
    requires Counted(m)
    ensures var o := Called(cfg, m, args, index, fuel);
      && Recorded(m, o.m) && KeepsCount(m, o.m) && KeepsStack(m, o.m)
      && (CleanFrom(o.m.history, |m.history|) ==> o.status.Ended?)
    decreases fuel, 2
  {
    hide Executed, Leftover, AfterPushes, Refusal;
    var p, o := AfterPushes(m, args), Called(cfg, m, args, index, fuel);
    PushesConserve(m, args);
    PushesCounted(m, args);
    ExecutedRecorded(cfg, p, index, fuel);
    CallConserves(cfg, p, index, fuel);
    RecordedPushes(m, p, o.m);
    assert m.paramcount == 0 ==> Base(m) == m.stk;
  }

  lemma RecordedPushes(m: Machine, p: Machine, m': Machine)
    requires Recorded(m, p) && Recorded(p, m')
    ensures Recorded(m, m')
    ensures NoneTurned(m'.history, |m.history|) ==> NoneTurned(m'.history, |p.history|)
    ensures CleanFrom(m'.history, |m.history|) ==> CleanFrom(m'.history, |p.history|)
  {
  }

  lemma {:induction false} ExecutedRecorded(cfg: Config, m: Machine, index: int, fuel: nat)
    requires Counted(m)
    ensures var o := Executed(cfg, m, index, fuel);
      && Recorded(m, o.m)
      && (NoneTurned(o.m.history, |m.history|) ==> o.m.paramcount == 0)
      && (CleanFrom(o.m.history, |m.history|) ==> o.status.Ended?)
    decreases fuel, 1
  {
    hide Interpreted, Leftover, Stored;
    var o := Executed(cfg, m, index, fuel);
    if Refusal(cfg, index, m.stk, m.hea) != ERR_NONE {
      LeftoverNext(m.history, Turned);
      assert o.m.history[|m.history|] == Turned;
    } else {
      var taken, r := ParametersTaken(m), EntryState(m, EntryPoint(cfg, index).value);
      TakenRecorded(m);
      var inner := if r.hea + STKMARGIN > r.stk then CallResult(taken, Bailed(ERR_STACKERR), 0)
                   else Interpreted(cfg, taken, r, Wrap(m.stk + m.paramcount * CELL), m.hea, fuel);
      RecordedNothing(taken, taken);
      InterpretedRecorded(cfg, taken, r, Wrap(m.stk + m.paramcount * CELL), m.hea, fuel);
      LeftRecorded(m, taken, inner);
      assert o == MarkLeft(inner);
    }
  }

  lemma TakenRecorded(m: Machine)
    requires Counted(m)
    ensures var taken := ParametersTaken(m);
      && Recorded(m, taken) && taken.paramcount == 0 && taken.history == m.history + [Taken]
      && taken.stk == m.stk && taken.hea == m.hea
  {
    LeftoverNext(m.history, Taken);
  }

  lemma LeftRecorded(m: Machine, taken: Machine, inner: CallResult)
    requires taken.history == m.history + [Taken] && Recorded(m, taken) && Recorded(taken, inner.m)
    requires taken.paramcount == 0 && KeepsCount(taken, inner.m)
    ensures var o := MarkLeft(inner);
      && Recorded(m, o.m)
      && (NoneTurned(o.m.history, |m.history|) ==> o.m.paramcount == 0)
      && (CleanFrom(o.m.history, |m.history|) ==> o.status.Ended?)
  {
    hide Leftover;
    var o := MarkLeft(inner);
    LeftoverNext(inner.m.history, Left(inner.status));
    assert forall i :: 0 <= i < |inner.m.history| ==> o.m.history[i] == inner.m.history[i];
    assert o.m.history[|inner.m.history|] == Left(inner.status);
  }

  lemma {:induction false} InterpretedRecorded(cfg: Config, m: Machine, r: State, resetStk: cell, resetHea: cell, fuel: nat)
    requires Counted(m)
    ensures var o := Interpreted(cfg, m, r, resetStk, resetHea, fuel);
      Recorded(m, o.m) && KeepsCount(m, o.m)
    decreases fuel, 0
  {
    hide Step, Ran, Leftover, Recorded, KeepsCount, KeepsStack, Counted;
    var o := Interpreted(cfg, m, r, resetStk, resetHea, fuel);
    if fuel == 0 {
      RecordedNothing(m, m);
    } else {
      var s := r.(mem := m.mem);
      if CallsNative(cfg, s) {
        var t := BehindCall(cfg, s);
        var n := Ran(cfg, Saved(m, t), NativeIndex(cfg, s), fuel - 1);
        RecordedNothing(m, Saved(m, t));
        RecordedCounted(m, Saved(m, t));
        RanRecorded(cfg, Saved(m, t), NativeIndex(cfg, s), fuel - 1);
        RecordedTwice(m, Saved(m, t), n.m);
        RecordedCounted(m, n.m);
        if n.done && n.m.error == ERR_NONE {
          InterpretedRecorded(cfg, n.m, t.(pri := n.value), resetStk, resetHea, fuel - 1);
        } else {
          RecordedNothing(n.m, o.m);
        }
        RecordedTwice(m, n.m, o.m);
      } else {
        match Stepped(cfg, m, s, resetStk, resetHea) {
          case GoesOn(next, t) =>
            RecordedNothing(m, next);
            RecordedCounted(m, next);
            InterpretedRecorded(cfg, next, t, resetStk, resetHea, fuel - 1);
            RecordedTwice(m, next, o.m);
          case Over(_) => RecordedNothing(m, o.m);
        }
      }
    }
  }

  lemma RecordedCounted(m: Machine, m': Machine)
    requires Recorded(m, m')
    ensures Counted(m')
  {
  }

  /** A native, whatever calls it makes: if all of them take their parameters none are left, and
      if all of them also end the stack is where it was. */
  lemma {:induction false} RanRecorded(cfg: Config, m: Machine, index: int, fuel: nat)
    requires Counted(m)
    ensures var n := Ran(cfg, m, index, fuel);
      Recorded(m, n.m) && KeepsCount(m, n.m) && KeepsStack(m, n.m)
    decreases fuel, 3
  {
    hide Called, Leftover, Recorded, KeepsCount, KeepsStack, Counted;
    var n := Ran(cfg, m, index, fuel);
    if fuel == 0 {
      RecordedNothing(m, m);
    } else {
      RecordedNothing(m, Ticked(m));
      RecordedCounted(m, Ticked(m));
      match cfg.natives(index, m.clock, ViewOf(m)) {
        case ReturnValue(v) =>
        case Call(args, entry) =>
          if entry == EXEC_CONT {
            RanRecorded(cfg, Ticked(m), index, fuel - 1);
            RecordedTwice(m, Ticked(m), n.m);
          } else {
            var o := Called(cfg, Ticked(m), args, entry, fuel - 1);
            CalledRecorded(cfg, Ticked(m), args, entry, fuel - 1);
            RecordedTwice(m, Ticked(m), o.m);
            RecordedCounted(m, o.m);
            RanRecorded(cfg, o.m, index, fuel - 1);
            RecordedTwice(m, o.m, n.m);
          }
        case op =>
          var next := Simply(Ticked(m), op);
          RecordedNothing(m, next);
          RecordedCounted(m, next);
          RanRecorded(cfg, next, index, fuel - 1);
          RecordedTwice(m, next, n.m);
      }
    }
  }

  /** A parameter was pushed after the last call that took parameters. */
  ghost predicate Waiting(h: seq<Mark>) {
    exists i :: 0 <= i < |h| && h[i] == Pushed && forall j :: i < j < |h| ==> h[j] != Taken
  }

  lemma {:induction false} LeftoverWaits(h: seq<Mark>)
    ensures Leftover(h) > 0 <==> Waiting(h)
  {
    if h != [] {
      var n := |h| - 1;
      var front := h[..n];
      LeftoverWaits(front);
      if h[n] != Pushed && h[n] != Taken && Waiting(front) {
        var i :| 0 <= i < |front| && front[i] == Pushed && forall j :: i < j < |front| ==> front[j] != Taken;
        assert h[i] == Pushed && forall j :: i < j < |h| ==> h[j] != Taken;
      }
      if h[n] != Pushed && Waiting(h) {
        var i :| 0 <= i < |h| && h[i] == Pushed && forall j :: i < j < |h| ==> h[j] != Taken;
        assert front[i] == Pushed;
      }
    }
  }

  /** A host call that ends leaves stack and heap as they were.  It leaves no parameters behind
      exactly if none was pushed after the last call that took its parameters, which is so if no
      call inside it is turned away. */
  lemma CallIsNeutral(cfg: Config, m: Machine, args: seq<cell>, index: int, fuel: nat)
    requires m.paramcount == 0 && Counted(m)
    ensures var o := Called(cfg, m, args, index, fuel);
      && (o.status.Ended? ==> o.m.stk == m.stk && o.m.hea == m.hea)
      && (o.m.paramcount == 0 <==> !Waiting(o.m.history))
      && (NoneTurned(o.m.history, |m.history|) ==> o.m.paramcount == 0)
      && (CleanFrom(o.m.history, |m.history|) ==> o.status.Ended?)
  {
    hide Executed, AfterPushes;
    PushesConserve(m, args);
    CallConserves(cfg, AfterPushes(m, args), index, fuel);
    CalledRecorded(cfg, m, args, index, fuel);
    LeftoverWaits(Called(cfg, m, args, index, fuel).m.history);
  }

  /** The count is not always 0 after a call that ends: a native pushes one argument and calls a
      function that does not exist, and the plugin halts. */
  lemma TurnedAwayLeavesParameters(env: Env) returns (cfg: Config, m: Machine)
    requires env.stp >= 1000 && env.hlw <= 0
    ensures m.paramcount == 0 && Counted(m)
    ensures var o := Called(cfg, m, [], 0, 4); o.status == Ended(ERR_NONE) && o.m.paramcount == 1 && !o.m.faulted
  {
    hide Interpreted, Ran, Stored;
    var natives := (index: int, clock: nat, view: View) => if clock == 0 then Call([7], 5) else ReturnValue(0);
    cfg := Config(env, [SYSREQ_C, 0, HALT, ERR_NONE], [0], -1, natives, true, true, true, true);
    m := Machine(0, 0, 0, 1000, 0, 0, 0, 0, map[988 := 0, 992 := 0, 996 := 0], false, 0, []);
    var taken, r := ParametersTaken(m), EntryState(m, 0);
    TakenExample(m);
    var turned := NativeThenHalt(cfg, taken, r);
    assert Executed(cfg, m, 0, 4) == MarkLeft(Interpreted(cfg, taken, r, 1000, 0, 4));
    assert AfterPushes(m, []) == m;
  }

  lemma TakenExample(m: Machine)
    requires m == Machine(0, 0, 0, 1000, 0, 0, 0, 0, map[988 := 0, 992 := 0, 996 := 0], false, 0, [])
    ensures ParametersTaken(m) == m.(history := [Taken])
    ensures EntryState(m, 0) == State(0, 0, 0, 992, 0, 0, m.mem)
    ensures Counted(m)
  {
  }

  lemma NativeThenHalt(cfg: Config, m: Machine, r: State) returns (turned: Machine)
    requires cfg.hasCallback && cfg.preInitialized && cfg.relocated && |cfg.publics| == 1
    requires cfg.code == [SYSREQ_C, 0, HALT, ERR_NONE] && r == State(0, 0, 0, 992, 0, 0, m.mem)
    requires m.paramcount == 0 && !m.faulted && 988 in m.mem && m.clock == 0
    requires (forall v :: cfg.natives(0, 0, v) == Call([7], 5)) && forall v :: cfg.natives(0, 1, v) == ReturnValue(0)
    ensures var o := Interpreted(cfg, m, r, 1000, 0, 4); o.status == Ended(ERR_NONE) && o.m.paramcount == 1 && !o.m.faulted
  {
    hide Ran, Step;
    var t := r.(cip := 8);
    var saved := Saved(m, t);
    turned := TurnedAway(cfg, saved);
    var s := t.(pri := 0, mem := turned.mem);
    Halts(cfg.env, s);
    assert CallsNative(cfg, r) && BehindCall(cfg, r) == t && !CallsNative(cfg, s) && IsAt(cfg, s, HALT);
    assert Interpreted(cfg, m, r, 1000, 0, 4) == Interpreted(cfg, Ticked(turned), t.(pri := 0), 1000, 0, 3);
  }

  lemma Halts(env: Env, s: State)
    requires s.cip == 8
    ensures Step(env, [SYSREQ_C, 0, HALT, ERR_NONE], s) == Stopped(ERR_NONE, s.(cip := 16))
  {
  }

  /** The native of the example. */
  lemma TurnedAway(cfg: Config, m: Machine) returns (turned: Machine)
    requires cfg.hasCallback && cfg.preInitialized && cfg.relocated && |cfg.publics| == 1
    requires m.stk == 992 && m.hea == 0 && m.paramcount == 0 && 988 in m.mem && m.clock == 0 && m.error == ERR_NONE
    requires cfg.natives(0, 0, ViewOf(m)) == Call([7], 5) && forall v :: cfg.natives(0, 1, v) == ReturnValue(0)
    ensures turned == m.(clock := 1, stk := 988, mem := m.mem[988 := 7], paramcount := 1, history := m.history + [Pushed, Turned])
    ensures Ran(cfg, m, 0, 3) == NativeReturn(Ticked(turned), true, 0)
  {
    var pushed := AfterPush(Ticked(m), 7);
    assert AfterPushes(Ticked(m), [7]) == pushed by {
      assert [7][1..] == [];
      assert AfterPushes(Ticked(m), []) == Ticked(m);
    }
    turned := pushed.(history := pushed.history + [Turned]);
    assert turned.history == m.history + [Pushed, Turned];
    assert Called(cfg, Ticked(m), [7], 5, 2) == CallResult(turned, Refused(ERR_INDEX), 0);
    assert Ran(cfg, turned, 0, 2) == NativeReturn(Ticked(turned), true, 0);
  }

  // ----- what a called function finds, and what it computes -----

  /** The stack has room for `n` arguments. */
  predicate Roomy(m: Machine, n: nat) {
    n == 0 || m.hea + STKMARGIN <= m.stk - CELL * (n - 1)
  }

  predicate CellsIn(mem: Memory, a: int, cells: seq<cell>) {
    forall k :: 0 <= k < |cells| ==> a + CELL * k in mem && mem[a + CELL * k] == cells[k]
  }

  lemma OnePush(m: Machine, v: cell)
    ensures var p := AfterPush(m, v);
      && p.hea == m.hea && (p.stk == m.stk || p.stk >= m.hea + STKMARGIN - CELL) && p.stk <= m.stk
      && if m.hea + STKMARGIN > m.stk then p == m
         else
           && p.stk == m.stk - CELL && p.paramcount == m.paramcount + 1
           && (if p.stk as int in m.mem then p.mem == m.mem[p.stk as int := v] && p.faulted == m.faulted
               else p.mem == m.mem && p.faulted)
  {
    if m.hea + STKMARGIN <= m.stk {
      assert Wrap(m.stk - CELL) == m.stk - CELL;
    }
  }

  /** With room for all arguments the stack drops by their size, and each is counted; without it
      the margin is used up. */
  lemma {:induction false} RoomForAll(m: Machine, args: seq<cell>)
    ensures var p := AfterPushes(m, args);
      && p.hea == m.hea && p.stk <= m.stk && (p.stk == m.stk || p.stk >= m.hea + STKMARGIN - CELL)
      && if Roomy(m, |args|) then p.stk == m.stk - CELL * |args| && p.paramcount == m.paramcount + |args|
         else p.hea + STKMARGIN > p.stk
  {
    hide AfterPush;
    if args != [] {
      RoomForAll(m, args[1..]);
      OnePush(AfterPushes(m, args[1..]), args[0]);
    }
  }

  /** Pushed arguments lie on the stack in order, the first one on top, and nothing below the
      heap has changed. */
  lemma {:induction false} ArgumentsPushed(m: Machine, args: seq<cell>)
    requires Roomy(m, |args|)
    ensures var p := AfterPushes(m, args);
      && p.mem.Keys == m.mem.Keys && (!p.faulted ==> CellsIn(p.mem, m.stk - CELL * |args|, args))
      && forall x :: x in m.mem && x < m.hea ==> p.mem[x] == m.mem[x]
  {
    hide CellsIn, Wrap, AfterPush;
    PushesConserve(m, args);
    if args == [] {
      NothingIn(m.mem, m.stk);
    } else {
      ArgumentsPushed(m, args[1..]);
      PushesConserve(m, args[1..]);
      RoomForAll(m, args[1..]);
      RoomForAll(m, args);
      var q := AfterPushes(m, args[1..]);
      OnePush(q, args[0]);
      PushedOnTop(q.mem, q.stk, args[1..], args[0]);
      assert [args[0]] + args[1..] == args;
    }
  }

  lemma NothingIn(mem: Memory, a: int)
    ensures CellsIn(mem, a, [])
  {
  }

  lemma PushedOnTop(mem: Memory, stk: int, cells: seq<cell>, value: cell)
    ensures CellsIn(mem, stk, cells) ==> CellsIn(mem[stk - CELL := value], stk - CELL, [value] + cells)
  {
    if CellsIn(mem, stk, cells) {
      forall k | 0 <= k < |cells| + 1
        ensures stk - CELL + CELL * k in mem[stk - CELL := value]
        ensures mem[stk - CELL := value][stk - CELL + CELL * k] == ([value] + cells)[k]
      {
        if k > 0 { assert stk + CELL * (k - 1) in mem; }
      }
    }
  }

  /** A call that finds no room returns before it runs anything. */
  lemma NoRoom(cfg: Config, m: Machine, index: int, fuel: nat)
    requires m.hea + STKMARGIN > m.stk && -0x8000_0000 + 2 * CELL <= m.stk
    ensures var o := Executed(cfg, m, index, fuel); o.status.Refused? || o.status == Bailed(ERR_STACKERR)
  {
  }

  /** No instruction of the first `n` calls a native. */
  ghost predicate Alone(cfg: Config, s: State, n: nat)
    decreases n
  {
    n == 0 || (!CallsNative(cfg, s) &&
      match Step(cfg.env, cfg.code, s) case Running(t) => Alone(cfg, t, n - 1) case _ => true)
  }

  /** Without natives the interpreter loop is the run of the abstract machine: it ends with the
      same error, registers and memory. */
  lemma {:induction false} AloneIsRun(cfg: Config, m: Machine, r: State, resetStk: cell, resetHea: cell, fuel: nat)
    requires r.mem == m.mem && Alone(cfg, r, fuel)
    ensures var o := Interpreted(cfg, m, r, resetStk, resetHea, fuel);
      match Run(cfg.env, cfg.code, r, fuel)
      case Running(_) => o.status == OutOfFuel
      case Stopped(err, t) => o.status == Ended(err) && o.m.mem == t.mem && o.m.pri == t.pri && o.m.alt == t.alt && o.m.cip == t.cip
      case Returned(err, t) => o.status == Bailed(err) && o.m.mem == t.mem
      case Fault => o.status == Bailed(ERR_MEMACCESS) && o.m.faulted
    decreases fuel
  {
    hide Step, Ran;
    if fuel > 0 {
      assert r.(mem := m.mem) == r;
      match Step(cfg.env, cfg.code, r) {
        case Running(t) =>
          AloneIsRun(cfg, m.(mem := t.mem, stk := if IsAt(cfg, r, RETN) then t.stk else m.stk), t, resetStk, resetHea, fuel - 1);
        case _ =>
      }
    }
  }

  // ----- what a call returns -----

  /** The state in which the loop finds the HALT that ends it. */
  function HaltOf(cfg: Config, m: Machine, r: State, resetStk: cell, resetHea: cell, fuel: nat): Option<State>
    decreases fuel
  {
    if fuel == 0 then None else
      var s := r.(mem := m.mem);
      if CallsNative(cfg, s) then
        var t := BehindCall(cfg, s);
        var n := Ran(cfg, Saved(m, t), NativeIndex(cfg, s), fuel - 1);
        if !n.done || n.m.error != ERR_NONE then None
        else HaltOf(cfg, n.m, t.(pri := n.value), resetStk, resetHea, fuel - 1)
      else
        match Stepped(cfg, m, s, resetStk, resetHea)
        case GoesOn(next, t) => HaltOf(cfg, next, t, resetStk, resetHea, fuel - 1)
        case Over(_) => if IsAt(cfg, s, HALT) && InCode(cfg.code, s.cip + CELL) then Some(s) else None
  }

  /** The HALT that ends a call; None if it ends otherwise. */
  function HaltState(cfg: Config, m: Machine, index: int, fuel: nat): Option<State> {
    var r := EntryState(m, if EntryPoint(cfg, index).Some? then EntryPoint(cfg, index).value else 0);
    if Refusal(cfg, index, m.stk, m.hea) != ERR_NONE || r.hea + STKMARGIN > r.stk then None
    else HaltOf(cfg, ParametersTaken(m), r, Wrap(m.stk + m.paramcount * CELL), m.hea, fuel)
  }

  /** A call that ends at a HALT returns the primary register as the HALT finds it, with the operand
      of the HALT as its error; any other end returns 0. */
  ghost predicate Returns(cfg: Config, halt: Option<State>, o: CallResult) {
    match halt
    case None => o.retval == 0
    case Some(s) =>
      && o.retval == s.pri == o.m.pri && o.m.alt == s.alt && o.m.frm == s.frm && o.m.mem == s.mem
      && InCode(cfg.code, s.cip + CELL) && o.m.cip == s.cip + 2 * CELL
      && o.status == (var operand := At(cfg.code, s.cip + CELL); if operand == ERR_SLEEP then Bailed(operand) else Ended(operand))
  }

  lemma {:induction false} InterpretedReturns(cfg: Config, m: Machine, r: State, resetStk: cell, resetHea: cell, fuel: nat)
    ensures Returns(cfg, HaltOf(cfg, m, r, resetStk, resetHea, fuel), Interpreted(cfg, m, r, resetStk, resetHea, fuel))
    decreases fuel
  {
    hide Step, Ran;
    if fuel > 0 {
      var s := r.(mem := m.mem);
      if CallsNative(cfg, s) {
        var t := BehindCall(cfg, s);
        var n := Ran(cfg, Saved(m, t), NativeIndex(cfg, s), fuel - 1);
        InterpretedReturns(cfg, n.m, t.(pri := n.value), resetStk, resetHea, fuel - 1);
      } else {
        if IsAt(cfg, s, HALT) { HaltStep(cfg, s); }
        match Stepped(cfg, m, s, resetStk, resetHea) {
          case GoesOn(next, t) => InterpretedReturns(cfg, next, t, resetStk, resetHea, fuel - 1);
          case Over(_) =>
        }
      }
    }
  }

  lemma HaltStep(cfg: Config, s: State)
    requires IsAt(cfg, s, HALT)
    ensures Step(cfg.env, cfg.code, s) ==
      if !InCode(cfg.code, s.cip + CELL) then Fault
      else
        var operand, t := At(cfg.code, s.cip + CELL), s.(cip := s.cip + 2 * CELL);
        if operand == ERR_SLEEP then Returned(operand, t) else Stopped(operand, t)
  {
  }

  lemma ExecutedReturns(cfg: Config, m: Machine, index: int, fuel: nat)
    ensures Returns(cfg, HaltState(cfg, m, index, fuel), Executed(cfg, m, index, fuel))
  {
    hide Interpreted, HaltOf, ParametersTaken;
    if Refusal(cfg, index, m.stk, m.hea) == ERR_NONE {
      InterpretedReturns(cfg, ParametersTaken(m), EntryState(m, EntryPoint(cfg, index).value),
        Wrap(m.stk + m.paramcount * CELL), m.hea, fuel);
    }
  }

  /** A function that returns 5. */
  lemma ReturnsFive(env: Env, m: Machine) returns (cfg: Config)
    requires m.stk == 1000 && m.hea == 0 && env.stp >= 1000 && env.hlw <= 0
    ensures var o := Executed(cfg, m, 0, 2); o.status == Ended(ERR_NONE) && o.retval == 5
  {
    hide ParametersTaken;
    var natives := (index: int, clock: nat, view: View) => ReturnValue(0);
    cfg := Config(env, [CONST_PRI, 5, HALT, ERR_NONE], [0], -1, natives, true, true, true, true);
    var taken, r := ParametersTaken(m), EntryState(m, 0);
    var s := r.(mem := taken.mem);
    var t := s.(pri := 5, cip := 8);
    assert Step(env, cfg.code, s) == Running(t);
    assert Step(env, cfg.code, t) == Stopped(ERR_NONE, t.(cip := 16));
    assert !CallsNative(cfg, s) && !CallsNative(cfg, t) && !IsAt(cfg, s, RETN) && IsAt(cfg, t, HALT);
    var next := taken.(mem := t.mem);
    assert Interpreted(cfg, taken, r, Wrap(m.stk + m.paramcount * CELL), m.hea, 2)
        == Interpreted(cfg, next, t, Wrap(m.stk + m.paramcount * CELL), m.hea, 1);
  }

  // ----- natives that call nothing -----

  function StateOf(m: Machine): State { State(m.pri, m.alt, m.frm, m.stk, m.hea, m.cip, m.mem) }

  /** Whenever a native finishes, it has done what the environment of the machine says. */
  ghost predicate Answers(cfg: Config) {
    forall index, m: Machine, fuel :: m.error == ERR_NONE && Ran(cfg, m, index, fuel).done ==>
      var n, a := Ran(cfg, m, index, fuel), cfg.env.native(index, StateOf(m));
      n.value == a.pri && n.m == m.(mem := a.mem, error := a.err, clock := n.m.clock)
  }

  /** The state before the last instruction of a run that ends. */
  function LastOf(env: Env, code: seq<cell>, s: State, n: nat): Option<State>
    decreases n
  {
    if n == 0 then None else
      match Step(env, code, s)
      case Running(t) => LastOf(env, code, t, n - 1)
      case _ => Some(s)
  }

  function AtHalt(cfg: Config, last: Option<State>): Option<State> {
    match last
    case Some(s) => if IsAt(cfg, s, HALT) && InCode(cfg.code, s.cip + CELL) then last else None
    case None => None
  }

  /** For natives that call nothing, a call that comes to an end is the run of the abstract machine. */
  lemma {:induction false} InterpretedIsRun(cfg: Config, m: Machine, r: State, resetStk: cell, resetHea: cell, fuel: nat)
    requires r.mem == m.mem && Answers(cfg)
    ensures var o := Interpreted(cfg, m, r, resetStk, resetHea, fuel);
      o.status != OutOfFuel ==>
        match Run(cfg.env, cfg.code, r, fuel)
        case Running(_) => false
        case Stopped(err, t) =>
          o.status == Ended(err) && o.m.mem == t.mem && o.m.pri == t.pri && o.m.alt == t.alt && o.m.cip == t.cip
        case Returned(err, t) => o.status == Bailed(err) && o.m.mem == t.mem
        case Fault => o.status == Bailed(ERR_MEMACCESS) && o.m.faulted
    ensures Interpreted(cfg, m, r, resetStk, resetHea, fuel).status != OutOfFuel ==>
      HaltOf(cfg, m, r, resetStk, resetHea, fuel) == AtHalt(cfg, LastOf(cfg.env, cfg.code, r, fuel))
    decreases fuel
  {
    hide Step, Ran;
    if fuel > 0 {
      assert r.(mem := m.mem) == r;
      if CallsNative(cfg, r) {
        var t := BehindCall(cfg, r);
        var saved := Saved(m, t);
        var n := Ran(cfg, saved, NativeIndex(cfg, r), fuel - 1);
        assert StateOf(saved) == t;
        NativeStep(cfg, r);
        if n.done {
          InterpretedIsRun(cfg, n.m, t.(pri := n.value, mem := n.m.mem), resetStk, resetHea, fuel - 1);
          assert t.(pri := n.value, mem := n.m.mem) == t.(pri := n.value).(mem := n.m.mem);
          SameInterpreted(cfg, n.m, t.(pri := n.value), resetStk, resetHea, fuel - 1);
        }
      } else {
        match Step(cfg.env, cfg.code, r) {
          case Running(t) =>
            InterpretedIsRun(cfg, m.(mem := t.mem, stk := if IsAt(cfg, r, RETN) then t.stk else m.stk), t, resetStk, resetHea, fuel - 1);
          case _ =>
        }
      }
    }
  }

  /** The loop takes its memory from the machine. */
  lemma SameInterpreted(cfg: Config, m: Machine, r: State, resetStk: cell, resetHea: cell, fuel: nat)
    ensures Interpreted(cfg, m, r, resetStk, resetHea, fuel) == Interpreted(cfg, m, r.(mem := m.mem), resetStk, resetHea, fuel)
    ensures HaltOf(cfg, m, r, resetStk, resetHea, fuel) == HaltOf(cfg, m, r.(mem := m.mem), resetStk, resetHea, fuel)
  {
    hide Step, Ran;
    assert r.(mem := m.mem).(mem := m.mem) == r.(mem := m.mem);
  }

  lemma NativeStep(cfg: Config, s: State)
    requires CallsNative(cfg, s)
    ensures Step(cfg.env, cfg.code, s) == ExecNative(cfg.env, NativeIndex(cfg, s), BehindCall(cfg, s))
  {
  }

  /** Natives that return at once do so. */
  lemma ReturningAnswers(cfg: Config, result: (int, View) -> cell)
    requires forall index, clock, v :: cfg.natives(index, clock, v) == ReturnValue(result(index, v))
    requires forall index, s: State ::
      cfg.env.native(index, s) == NativeResult(ERR_NONE, result(index, View(s.pri, s.alt, s.frm, s.stk, s.hea, s.mem)), s.mem)
    ensures Answers(cfg)
  {
  }

  // ----- the AMX structure -----

  class Amx {
    const cfg: Config

    var cip: int
    var frm: cell
    var hea: cell
    var stk: cell
    var pri: cell
    var alt: cell
    var error: int
    var paramcount: nat
    var mem: Memory
    var faulted: bool
    var clock: nat
    ghost var history: seq<Mark>

    ghost function Current(): Machine
      reads this
    {
      Machine(cip, frm, hea, stk, pri, alt, error, paramcount, mem, faulted, clock, history)
    }

    method StoreCell(a: int, v: cell)
      modifies `mem, `faulted
      ensures Current() == Stored(old(Current()), a, v)
    {
      if a in mem {
        mem := mem[a := v];
      } else {
        faulted := true;
      }
    }

    /** amx_Push */
    method Push(value: cell) returns (err: int)
      modifies `stk, `paramcount, `mem, `faulted, `history
      ensures Current() == AfterPush(old(Current()), value) && err == PushError(old(Current()))
    {
      if hea + STKMARGIN > stk { return ERR_STACKERR; }
      stk := Wrap(stk - CELL);
      paramcount := paramcount + 1;
      history := history + [Pushed];
      StoreCell(stk, value);
      err := ERR_NONE;
    }

    /** amx_Allot; the physical address is `addr` in the memory of this machine. */
    method AllotCells(cells: int) returns (err: int, addr: cell)
      modifies `hea
      ensures Current() == Allotted(old(Current()), cells) && err == AllotError(old(Current()), cells)
      ensures addr == old(hea)
    {
      addr := hea;
      if Unsigned(stk - hea - cells * CELL) < STKMARGIN { return ERR_MEMORY, addr; }
      hea := Wrap(hea + cells * CELL);
      err := ERR_NONE;
    }

    /** amx_Release */
    method ReleaseTo(addr: cell)
      modifies `hea
      ensures Current() == Released(old(Current()), addr)
    {
      if hea > addr { hea := addr; }
    }

    /** The host's way of calling a public function. */
    method HostCall(args: seq<cell>, index: int, fuel: nat) returns (status: Status, retval: cell)
      requires index != EXEC_CONT
      modifies this
      ensures CallResult(Current(), status, retval) == Called(cfg, old(Current()), args, index, fuel)
      decreases fuel, 2
    {
      hide Executed;
      var i := |args|;
      while i > 0
        invariant 0 <= i <= |args|
        invariant Current() == AfterPushes(old(Current()), args[i..])
      {
        i := i - 1;
        var _ := Push(args[i]);
        assert args[i..][1..] == args[i+1..];
      }
      assert args[0..] == args;
      status, retval := Exec(index, fuel);
    }

    /** The checks of amx_Exec, and where the function begins. */
    method Look(index: int) returns (err: int, entry: int)
      requires index != EXEC_CONT
      ensures err == Refusal(cfg, index, stk, hea) && (err == ERR_NONE ==> EntryPoint(cfg, index) == Some(entry))
    {
      entry := 0;
      if !cfg.hasCallback { return ERR_CALLBACK, entry; }
      if !cfg.preInitialized && !cfg.nativesRegistered { return ERR_NOTFOUND, entry; }
      if !cfg.relocated { return ERR_INIT, entry; }
      if index == EXEC_MAIN {
        if cfg.main < 0 { return ERR_INDEX, entry; }
        entry := cfg.main;
      } else if index < 0 || index >= |cfg.publics| {
        return ERR_INDEX, entry;
      } else {
        entry := cfg.publics[index];
      }
      if stk > cfg.env.stp { return ERR_STACKLOW, entry; }
      if hea < cfg.env.hlw { return ERR_HEAPLOW, entry; }
      err := ERR_NONE;
    }

    /** Puts the parameter count and a zero return address on a stack pointer of its own. */
    method TakeParameters() returns (top: cell)
      modifies `paramcount, `mem, `faulted, `history
      ensures Current() == ParametersTaken(old(Current())) && top == Wrap(stk - 2 * CELL)
    {
      hide Wrap;
      WrapSum(stk - CELL, -CELL);
      top := Wrap(stk - CELL);
      var count := paramcount;
      paramcount := 0;
      history := history + [Taken];
      StoreCell(top, Wrap(count * CELL));
      top := Wrap(top - CELL);
      StoreCell(top, 0);
    }

    /** amx_Exec */
    method Exec(index: int, fuel: nat) returns (status: Status, retval: cell)
      requires index != EXEC_CONT
      modifies this
      ensures CallResult(Current(), status, retval) == Executed(cfg, old(Current()), index, fuel)
      decreases fuel, 1
    {
      hide Interpreted, ParametersTaken, Refusal;
      var err, entry := Look(index);
      if err != ERR_NONE {
        history := history + [Turned];
        return Refused(err), 0;
      }
      var resetStk, resetHea := Wrap(stk + paramcount * CELL), hea;
      TakenKeeps(Current());
      var top := TakeParameters();
      retval := 0;
      if hea + STKMARGIN > top {
        status := Bailed(ERR_STACKERR);
      } else {
        status, retval := Interpret(State(0, 0, 0, top, hea, entry, mem), resetStk, resetHea, fuel);
      }
      history := history + [Left(status)];
    }

    /** ABORT */
    method Abort(resetStk: cell, resetHea: cell, r: State)
      modifies `stk, `hea, `cip, `pri, `alt
      ensures Current() == Aborted(old(Current()), resetStk, resetHea, r)
    {
      stk, hea, cip, pri, alt := resetStk, resetHea, r.cip, r.pri, r.alt;
    }

    /** An instruction that calls no native; `over` tells that the call returns. */
    method Advance(s: State, resetStk: cell, resetHea: cell) returns (over: bool, r: State, status: Status, retval: cell)
      modifies `mem, `stk, `hea, `cip, `pri, `alt, `frm, `faulted
      ensures match Stepped(cfg, old(Current()), s, resetStk, resetHea)
        case GoesOn(next, t) => !over && Current() == next && r == t
        case Over(o) => over && CallResult(Current(), status, retval) == o
    {
      hide Step;
      over, r, status, retval := true, s, OutOfFuel, 0;
      var isReturn, isHalt := IsAt(cfg, s, RETN), IsAt(cfg, s, HALT);
      match Step(cfg.env, cfg.code, s) {
        case Running(t) =>
          over, r, mem := false, t, t.mem;
          if isReturn { stk := t.stk; }
        case Stopped(err, t) =>
          mem := t.mem;
          if isHalt {
            retval := t.pri;
            frm := t.frm;
          }
          Abort(resetStk, resetHea, t);
          status := Ended(err);
        case Returned(err, t) =>
          mem := t.mem;
          if isHalt {
            retval := t.pri;
            frm, pri, alt, cip := t.frm, t.pri, t.alt, t.cip;
          }
          status := Bailed(err);
        case Fault =>
          faulted := true;
          status := Bailed(ERR_MEMACCESS);
      }
    }

    /** The interpreter loop, on registers of its own. */
    method Interpret(r0: State, resetStk: cell, resetHea: cell, fuel0: nat) returns (status: Status, retval: cell)
      modifies this
      ensures CallResult(Current(), status, retval) == Interpreted(cfg, old(Current()), r0, resetStk, resetHea, fuel0)
      decreases fuel0, 0
    {
      hide Stepped, Ran, NativeIndex, BehindCall, CallsNative;
      var r, fuel: nat := r0, fuel0;
      retval := 0;
      while fuel > 0
        invariant fuel <= fuel0
        invariant Interpreted(cfg, Current(), r, resetStk, resetHea, fuel)
               == Interpreted(cfg, old(Current()), r0, resetStk, resetHea, fuel0)
        decreases fuel
      {
        fuel := fuel - 1;
        r := r.(mem := mem);
        if CallsNative(cfg, r) {
          var index := NativeIndex(cfg, r);
          r := BehindCall(cfg, r);
          cip, hea, frm, stk, pri, alt := r.cip, r.hea, r.frm, r.stk, r.pri, r.alt;
          var done, value := Callback(index, fuel);
          if !done { return OutOfFuel, 0; }
          r := r.(pri := value);
          if error == ERR_SLEEP {
            pri, alt := r.pri, r.alt;
            return Bailed(ERR_SLEEP), 0;
          }
          if error != ERR_NONE {
            Abort(resetStk, resetHea, r);
            return Ended(error), 0;
          }
        } else {
          var over;
          over, r, status, retval := Advance(r, resetStk, resetHea);
          if over { return; }
        }
      }
      status, retval := OutOfFuel, 0;
    }

    /** amx_Callback */
    method Callback(index: int, fuel0: nat) returns (done: bool, value: cell)
      modifies this
      ensures NativeReturn(Current(), done, value) == Ran(cfg, old(Current()).(error := ERR_NONE), index, fuel0)
      decreases fuel0, 3
    {
      hide Called;
      var fuel: nat := fuel0;
      error, value := ERR_NONE, 0;
      while fuel > 0
        invariant fuel <= fuel0
        invariant Ran(cfg, Current(), index, fuel) == Ran(cfg, old(Current()).(error := ERR_NONE), index, fuel0)
        decreases fuel
      {
        fuel := fuel - 1;
        var op := cfg.natives(index, clock, View(pri, alt, frm, stk, hea, mem));
        clock := clock + 1;
        match op {
          case Call(args, entry) =>
            if entry != EXEC_CONT { var _, _ := HostCall(args, entry, fuel); }
          case Allot(cells) => var _, _ := AllotCells(cells);
          case Release(addr) => ReleaseTo(addr);
          case Write(addr, v) => StoreCell(addr, v);
          case RaiseError(err) => error := err;
          case ReturnValue(v) => return true, v;
        }
      }
      done := false;
    }
  }
}

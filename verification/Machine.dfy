/**
  The abstract machine (amx.cpp, the ANSI C interpreter of `amx_Exec`).

  Cells are 32-bit signed integers.  Code is a sequence of cells; `cip` is a byte offset
  into it.  Data is a map from the byte address of a cell to the cell: the addresses in the
  map are the memory that the machine owns, and a run that touches any other address ends
  in `Fault`, because there the interpreter has no defined behaviour.
*/
module Pawn {
  import opened Wrappers

  type cell = c: int | -0x8000_0000 <= c < 0x8000_0000

  function Wrap(x: int): cell {
    (x + 0x8000_0000) % 0x1_0000_0000 - 0x8000_0000
  }

  lemma WrapSum(x: int, y: int)
    ensures Wrap(Wrap(x) + y) == Wrap(x + y)
  {
  }

  function Unsigned(c: int): nat { c % 0x1_0000_0000 }

  const CELL := 4
  const STKMARGIN := 64   // 16 cells

  // ----- opcodes -----

  const LOAD_PRI := 1
  const LOAD_ALT := 2
  const LOAD_S_PRI := 3
  const LOAD_S_ALT := 4
  const LREF_PRI := 5
  const LREF_ALT := 6
  const LREF_S_PRI := 7
  const LREF_S_ALT := 8
  const LOAD_I := 9
  const CONST_PRI := 11
  const CONST_ALT := 12
  const ADDR_PRI := 13
  const ADDR_ALT := 14
  const STOR_PRI := 15
  const STOR_ALT := 16
  const STOR_S_PRI := 17
  const STOR_S_ALT := 18
  const SREF_PRI := 19
  const SREF_ALT := 20
  const SREF_S_PRI := 21
  const SREF_S_ALT := 22
  const STOR_I := 23
  const LIDX := 25
  const IDXADDR := 27
  const SCTRL := 32
  const MOVE_PRI := 33
  const MOVE_ALT := 34
  const XCHG := 35
  const PUSH_PRI := 36
  const PUSH_ALT := 37
  const PUSH_C := 39
  const PUSH := 40
  const PUSH_S := 41
  const POP_PRI := 42
  const POP_ALT := 43
  const STACK := 44
  const HEAP := 45
  const PROC := 46
  const RET := 47
  const RETN := 48
  const CALL := 49
  const CALL_PRI := 50
  const JUMP := 51
  const JREL := 52
  const JZER := 53
  const JNZ := 54
  const JEQ := 55
  const JSGEQ := 64
  const SMUL := 72
  const ADD := 78
  const SUB := 79
  const SUB_ALT := 80
  const NOT := 84
  const NEG := 85
  const ADD_C := 87
  const ZERO_PRI := 89
  const ZERO_ALT := 90
  const ZERO := 91
  const ZERO_S := 92
  const EQ := 95
  const SGEQ := 104
  const EQ_C_PRI := 105
  const EQ_C_ALT := 106
  const INC_PRI := 107
  const INC_ALT := 108
  const INC := 109
  const INC_S := 110
  const DEC_PRI := 112
  const DEC_ALT := 113
  const DEC := 114
  const DEC_S := 115
  const HALT := 120
  const BOUNDS := 121
  const SYSREQ_PRI := 122
  const SYSREQ_C := 123
  const FILE := 124
  const LINE := 125
  const SYMBOL := 126
  const SRANGE := 127
  const JUMP_PRI := 128
  const SWITCH := 129
  const CASETBL := 130
  const SWAP_PRI := 131
  const SWAP_ALT := 132
  const PUSHADDR := 133
  const NOP := 134
  const SYMTAG := 136
  const BREAK := 137
  const FLOAT_MUL := 138
  const FLOAT_DIV := 139
  const FLOAT_ADD := 140
  const FLOAT_SUB := 141
  const FLOAT_TO := 142
  const FLOAT_ROUND := 143
  const FLOAT_CMP := 144

  const ERR_NONE := 0
  const ERR_STACKERR := 3
  const ERR_BOUNDS := 4
  const ERR_MEMACCESS := 5
  const ERR_INVINSTR := 6
  const ERR_STACKLOW := 7
  const ERR_HEAPLOW := 8
  const ERR_DIVIDE := 11
  const ERR_SLEEP := 12

  /** What follows an opcode in the code: how `amx_BrowseRelocate` classifies it. */
  datatype Layout = Plain | Operand | Target | Native | Two | Bytes | Table

  function LayoutOf(op: cell): Option<Layout> {
    if op <= 0 || op > FLOAT_CMP then None
    else if op == SYSREQ_C then Some(Native)
    else if op == CASETBL then Some(Table)
    else if op == FILE || op == SYMBOL then Some(Bytes)
    else if op == LINE || op == SRANGE then Some(Two)
    else if op == CALL || op == JUMP || JZER <= op <= JSGEQ || op == SWITCH then Some(Target)
    else if op in {9, 23, 25, 27} || MOVE_PRI <= op <= PUSH_ALT || op == POP_PRI || op == POP_ALT
         || PROC <= op <= CALL_PRI || 65 <= op <= 67 || SMUL <= op <= 86 || op == ZERO_PRI || op == ZERO_ALT
         || 93 <= op <= SGEQ || op in {107, 108, 111, 112, 113, 116, 122, 128, 131, 132, 134, 137} || op >= FLOAT_MUL
    then Some(Plain)
    else Some(Operand)
  }

  // ----- machine states -----

  type Memory = map<int, cell>

  datatype State = State(pri: cell, alt: cell, frm: cell, stk: cell, hea: cell, cip: int, mem: Memory)

  /** `Stopped` is HALT or the ABORT macro; `Returned` is a `return` of the interpreter that
      bypasses ABORT (CHKMARGIN, CHKSTACK, CHKHEAP and the sleep of a native). */
  datatype Outcome =
    | Running(s: State)
    | Stopped(err: int, s: State)
    | Returned(err: int, s: State)
    | Fault

  datatype NativeResult = NativeResult(err: int, pri: cell, mem: Memory)

  /** Single-precision operations on the bit patterns of cells; their results are left open. */
  datatype FloatUnit = FloatUnit(
    mul: (cell, cell) -> cell, div: (cell, cell) -> cell, add: (cell, cell) -> cell, sub: (cell, cell) -> cell,
    ofInt: cell -> cell,
    nearest: cell -> cell, floor: cell -> cell, ceil: cell -> cell,   // floor(x+.5), floor(x), ceil(x), as integers
    equal: (cell, cell) -> bool, greater: (cell, cell) -> bool, nonNegative: cell -> bool)

  /** What a run depends on besides its code and state: the native functions, the bounds of
      the stack and the heap, the address `base` of the code in memory, and the meaning of
      the instructions whose details this model leaves open. */
  datatype Env = Env(
    native: (int, State) -> NativeResult,
    fpu: FloatUnit,
    alu: (cell, cell, cell, cell) -> Option<(cell, cell)>,
    other: (cell, cell, State) -> Outcome,
    stp: int, hlw: int, base: int)

  // ----- memory -----

  function LoadPri(s: State, a: int): Outcome {
    if a in s.mem then Running(s.(pri := s.mem[a])) else Fault
  }

  function LoadAlt(s: State, a: int): Outcome {
    if a in s.mem then Running(s.(alt := s.mem[a])) else Fault
  }

  function Store(s: State, a: int, v: cell): Outcome {
    if a in s.mem then Running(s.(mem := s.mem[a := v])) else Fault
  }

  function Bump(s: State, a: int, delta: int): Outcome {
    if a in s.mem then Running(s.(mem := s.mem[a := Wrap(s.mem[a] + delta)])) else Fault
  }

  function Push(s: State, v: int): Outcome {
    var a := Wrap(s.stk - CELL);
    if a in s.mem then Running(s.(stk := a, mem := s.mem[a := Wrap(v)])) else Fault
  }

  /** The range check of indirect accesses: not between heap and stack, not above the top. */
  predicate Accessible(env: Env, s: State, a: int) {
    !(s.hea <= a < s.stk) && Unsigned(a) < Unsigned(env.stp)
  }

  // ----- groups of instructions -----

  predicate IsData(op: cell) {
    LOAD_PRI <= op <= LOAD_I || CONST_PRI <= op <= STOR_I || op == LIDX || op == IDXADDR || MOVE_PRI <= op <= XCHG
    || (ZERO <= op <= ZERO_S) || (INC <= op <= INC_S) || (DEC <= op <= DEC_S)
  }

  /** Loads, stores and register moves. */
  function ExecData(env: Env, op: cell, arg: cell, s: State): Outcome {
    if op == LOAD_PRI then LoadPri(s, arg)
    else if op == LOAD_ALT then LoadAlt(s, arg)
    else if op == LOAD_S_PRI then LoadPri(s, s.frm + arg)
    else if op == LOAD_S_ALT then LoadAlt(s, s.frm + arg)
    else if op == LREF_PRI then if arg in s.mem then LoadPri(s, s.mem[arg]) else Fault
    else if op == LREF_ALT then if arg in s.mem then LoadAlt(s, s.mem[arg]) else Fault
    else if op == LREF_S_PRI then if s.frm + arg in s.mem then LoadPri(s, s.mem[s.frm + arg]) else Fault
    else if op == LREF_S_ALT then if s.frm + arg in s.mem then LoadAlt(s, s.mem[s.frm + arg]) else Fault
    else if op == LOAD_I then if Accessible(env, s, s.pri) then LoadPri(s, s.pri) else Stopped(ERR_MEMACCESS, s)
    else if op == CONST_PRI then Running(s.(pri := arg))
    else if op == CONST_ALT then Running(s.(alt := arg))
    else if op == ADDR_PRI then Running(s.(pri := Wrap(s.frm + arg)))
    else if op == ADDR_ALT then Running(s.(alt := Wrap(s.frm + arg)))
    else if op == STOR_PRI then Store(s, arg, s.pri)
    else if op == STOR_ALT then Store(s, arg, s.alt)
    else if op == STOR_S_PRI then Store(s, s.frm + arg, s.pri)
    else if op == STOR_S_ALT then Store(s, s.frm + arg, s.alt)
    else if op == SREF_PRI then if arg in s.mem then Store(s, s.mem[arg], s.pri) else Fault
    else if op == SREF_ALT then if arg in s.mem then Store(s, s.mem[arg], s.alt) else Fault
    else if op == SREF_S_PRI then if s.frm + arg in s.mem then Store(s, s.mem[s.frm + arg], s.pri) else Fault
    else if op == SREF_S_ALT then if s.frm + arg in s.mem then Store(s, s.mem[s.frm + arg], s.alt) else Fault
    else if op == STOR_I then if Accessible(env, s, s.alt) then Store(s, s.alt, s.pri) else Stopped(ERR_MEMACCESS, s)
    else if op == LIDX then
      var a := Wrap(s.pri * CELL + s.alt);
      if Accessible(env, s, a) then LoadPri(s, a) else Stopped(ERR_MEMACCESS, s)
    else if op == IDXADDR then Running(s.(pri := Wrap(s.pri * CELL + s.alt)))
    else if op == MOVE_PRI then Running(s.(pri := s.alt))
    else if op == MOVE_ALT then Running(s.(alt := s.pri))
    else if op == XCHG then Running(s.(pri := s.alt, alt := s.pri))
    else if op == ZERO then Store(s, arg, 0)
    else if op == ZERO_S then Store(s, s.frm + arg, 0)
    else if op == INC then Bump(s, arg, 1)
    else if op == INC_S then Bump(s, s.frm + arg, 1)
    else if op == DEC then Bump(s, arg, -1)
    else Bump(s, s.frm + arg, -1)
  }

  function Flag(b: bool): cell { if b then 1 else 0 }

  function ExecArithmetic(env: Env, op: cell, arg: cell, s: State): Outcome {
    if op == ADD then Running(s.(pri := Wrap(s.pri + s.alt)))
    else if op == SUB then Running(s.(pri := Wrap(s.pri - s.alt)))
    else if op == SUB_ALT then Running(s.(pri := Wrap(s.alt - s.pri)))
    else if op == NOT then Running(s.(pri := Flag(s.pri == 0)))
    else if op == NEG then Running(s.(pri := Wrap(0 - s.pri)))
    else if op == ADD_C then Running(s.(pri := Wrap(s.pri + arg)))
    else if op == ZERO_PRI then Running(s.(pri := 0))
    else if op == ZERO_ALT then Running(s.(alt := 0))
    else if EQ <= op <= SGEQ then Running(s.(pri := Flag(Compares(op - EQ, s.pri, s.alt))))
    else if op == EQ_C_PRI then Running(s.(pri := Flag(s.pri == arg)))
    else if op == EQ_C_ALT then Running(s.(pri := Flag(s.alt == arg)))
    else if op == INC_PRI then Running(s.(pri := Wrap(s.pri + 1)))
    else if op == INC_ALT then Running(s.(alt := Wrap(s.alt + 1)))
    else if op == DEC_PRI then Running(s.(pri := Wrap(s.pri - 1)))
    else if op == DEC_ALT then Running(s.(alt := Wrap(s.alt - 1)))
    else match env.alu(op, arg, s.pri, s.alt)
      case None => Stopped(ERR_DIVIDE, s)
      case Some((pri, alt)) => Running(s.(pri := pri, alt := alt))
  }

  /** The ten comparisons, in the order of EQ..SGEQ and, from JEQ on, of the jumps. */
  predicate Compares(which: int, pri: cell, alt: cell) {
    match which
    case 0 => pri == alt
    case 1 => pri != alt
    case 2 => Unsigned(pri) < Unsigned(alt)
    case 3 => Unsigned(pri) <= Unsigned(alt)
    case 4 => Unsigned(pri) > Unsigned(alt)
    case 5 => Unsigned(pri) >= Unsigned(alt)
    case 6 => pri < alt
    case 7 => pri <= alt
    case 8 => pri > alt
    case _ => pri >= alt
  }

  predicate IsStack(op: cell) {
    PUSH_PRI <= op <= PUSH_ALT || PUSH_C <= op <= PROC || SWAP_PRI <= op <= PUSHADDR
  }

  function CheckMargin(s: State, otherwise: Outcome): Outcome {
    if s.hea + STKMARGIN > s.stk then Returned(ERR_STACKERR, s) else otherwise
  }

  function ExecStack(env: Env, op: cell, arg: cell, s: State): Outcome {
    if op == PUSH_PRI then Push(s, s.pri)
    else if op == PUSH_ALT then Push(s, s.alt)
    else if op == PUSH_C then Push(s, arg)
    else if op == PUSH then if arg in s.mem then Push(s, s.mem[arg]) else Fault
    else if op == PUSH_S then if s.frm + arg in s.mem then Push(s, s.mem[s.frm + arg]) else Fault
    else if op == POP_PRI then if s.stk in s.mem then Running(s.(pri := s.mem[s.stk], stk := Wrap(s.stk + CELL))) else Fault
    else if op == POP_ALT then if s.stk in s.mem then Running(s.(alt := s.mem[s.stk], stk := Wrap(s.stk + CELL))) else Fault
    else if op == STACK then
      var t := s.(alt := s.stk, stk := Wrap(s.stk + arg));
      CheckMargin(t, if t.stk > env.stp then Returned(ERR_STACKLOW, t) else Running(t))
    else if op == HEAP then
      var t := s.(alt := s.hea, hea := Wrap(s.hea + arg));
      CheckMargin(t, if t.hea < env.hlw then Returned(ERR_HEAPLOW, t) else Running(t))
    else if op == PROC then
      match Push(s, s.frm)
      case Running(t) => var u := t.(frm := t.stk); CheckMargin(u, Running(u))
      case o => o
    else if op == SWAP_PRI then
      if s.stk in s.mem then Running(s.(pri := s.mem[s.stk], mem := s.mem[s.stk := s.pri])) else Fault
    else if op == SWAP_ALT then
      if s.stk in s.mem then Running(s.(alt := s.mem[s.stk], mem := s.mem[s.stk := s.alt])) else Fault
    else Push(s, s.frm + arg)
  }

  /** RET and RETN: `codesize` bounds the return address. */
  function ExecReturn(op: cell, s: State, codesize: nat): Outcome {
    if s.stk !in s.mem || s.stk + CELL !in s.mem then Fault else
      var t := s.(frm := s.mem[s.stk], stk := Wrap(s.stk + 2 * CELL));
      var offs := s.mem[s.stk + CELL];
      if Unsigned(offs) >= codesize then Stopped(ERR_MEMACCESS, t)
      else if op == RET then Running(t.(cip := offs))
      else if t.stk !in t.mem then Fault
      else Running(t.(cip := offs, stk := Wrap(t.stk + t.mem[t.stk] + CELL)))
  }

  /** The byte offset that a relocated operand points at. */
  function JumpTarget(base: int, operand: cell): int { Unsigned(operand - base) }

  predicate Jumps(op: cell, s: State) {
    op == JUMP || (op == JZER && s.pri == 0) || (op == JNZ && s.pri != 0)
    || (JEQ <= op <= JSGEQ && Compares(op - JEQ, s.pri, s.alt))
  }

  function RoundNative(fpu: FloatUnit, x: cell, how: cell): cell {
    if how == 1 then fpu.floor(x) else if how == 2 then fpu.ceil(x)
    else if how == 3 then if fpu.nonNegative(x) then fpu.floor(x) else fpu.ceil(x)
    else fpu.nearest(x)
  }

  function RoundOpcode(fpu: FloatUnit, x: cell, how: cell): cell {
    if how == 0 then fpu.nearest(x) else if how == 1 then fpu.floor(x) else fpu.ceil(x)
  }

  function CompareFloats(fpu: FloatUnit, x: cell, y: cell): cell {
    if fpu.equal(x, y) then 0 else if fpu.greater(x, y) then 1 else -1
  }

  /** The FLOAT.* instructions take their operands from the stack and leave them there. */
  function ExecFloat(fpu: FloatUnit, op: cell, s: State): Outcome {
    if s.stk + CELL !in s.mem then Fault
    else
      var x := s.mem[s.stk + CELL];
      if op == FLOAT_TO then Running(s.(pri := fpu.ofInt(x)))
      else if s.stk + 2 * CELL !in s.mem then Fault
      else
        var y := s.mem[s.stk + 2 * CELL];
        Running(s.(pri :=
          if op == FLOAT_MUL then fpu.mul(x, y)
          else if op == FLOAT_DIV then fpu.div(x, y)
          else if op == FLOAT_ADD then fpu.add(x, y)
          else if op == FLOAT_SUB then fpu.sub(x, y)
          else if op == FLOAT_ROUND then RoundOpcode(fpu, x, y)
          else CompareFloats(fpu, x, y)))
  }

  /** SYSREQ: calls a native function.  Registers and memory other than `pri` and the data
      that the native writes are kept. */
  function ExecNative(env: Env, index: int, s: State): Outcome {
    var r := env.native(index, s);
    var t := s.(pri := r.pri, mem := r.mem);
    if r.err == ERR_NONE then Running(t)
    else if r.err == ERR_SLEEP then Returned(ERR_SLEEP, t)
    else Stopped(r.err, t)
  }

  // ----- one instruction -----

  predicate InCode(code: seq<cell>, cip: int) {
    0 <= cip && cip % CELL == 0 && cip / CELL < |code|
  }

  function At(code: seq<cell>, cip: int): cell
    requires InCode(code, cip)
  {
    code[cip / CELL]
  }

  /** The case table that starts at byte `cip`: the jump operand selected by `pri`, given
      the count of records that are left, and the operand of the "none matched" record. */
  function SelectCase(code: seq<cell>, cip: int, count: int, pri: cell, default: cell): Option<cell>
    decreases count
  {
    if count <= 0 then Some(default)
    else if !InCode(code, cip) || !InCode(code, cip + CELL) then None
    else if At(code, cip) == pri then Some(At(code, cip + CELL))
    else SelectCase(code, cip + 2 * CELL, count - 1, pri, default)
  }

  function ExecSwitch(env: Env, code: seq<cell>, operand: cell, s: State): Outcome {
    var table := JumpTarget(env.base, operand) + CELL;
    if !InCode(code, table) || !InCode(code, table + CELL) then Fault
    else match SelectCase(code, table + 2 * CELL, At(code, table), s.pri, At(code, table + CELL))
      case None => Fault
      case Some(target) => Running(s.(cip := JumpTarget(env.base, target)))
  }

  /** Executes an instruction of one or two cells, other than SWITCH.  `s.cip` is the byte
      after the instruction. */
  function Execute(env: Env, op: cell, arg: cell, s: State, codesize: nat): Outcome {
    if IsData(op) then ExecData(env, op, arg, s)
    else if IsStack(op) then ExecStack(env, op, arg, s)
    else if op == RET || op == RETN then ExecReturn(op, s, codesize)
    else if op == CALL then
      match Push(s, s.cip)
      case Running(t) => Running(t.(cip := JumpTarget(env.base, arg)))
      case o => o
    else if JUMP <= op <= JSGEQ && op != JREL then
      Running(if Jumps(op, s) then s.(cip := JumpTarget(env.base, arg)) else s)
    else if op == JREL then Running(s.(cip := s.cip + arg))
    else if 65 <= op <= EQ_C_ALT || INC_PRI <= op <= INC_ALT || DEC_PRI <= op <= DEC_ALT then ExecArithmetic(env, op, arg, s)
    else if op == HALT then if arg == ERR_SLEEP then Returned(ERR_SLEEP, s) else Stopped(arg, s)
    else if op == BOUNDS then if Unsigned(s.pri) > Unsigned(arg) then Stopped(ERR_BOUNDS, s) else Running(s)
    else if op == SYSREQ_C then ExecNative(env, arg, s)
    else if op == SYSREQ_PRI then ExecNative(env, s.pri, s)
    else if op == SYMBOL then Running(s.(cip := s.cip + arg))
    else if op == LINE || op == SRANGE then Running(s.(cip := s.cip + CELL))
    else if op == NOP || op == BREAK || op == SYMTAG then Running(s)
    else if op >= FLOAT_MUL then ExecFloat(env.fpu, op, s)
    else if op == FILE || op == CASETBL then Stopped(ERR_INVINSTR, s)
    else env.other(op, arg, s)
  }

  /** One round of the interpreter loop. */
  function Step(env: Env, code: seq<cell>, s: State): Outcome {
    if !InCode(code, s.cip) then Fault
    else
      var op := At(code, s.cip);
      match LayoutOf(op)
      case None => Stopped(ERR_INVINSTR, s)
      case Some(Plain) => Execute(env, op, 0, s.(cip := s.cip + CELL), CELL * |code|)
      case Some(_) =>
        if !InCode(code, s.cip + CELL) then Fault
        else if op == SWITCH then ExecSwitch(env, code, At(code, s.cip + CELL), s)
        else Execute(env, op, At(code, s.cip + CELL), s.(cip := s.cip + 2 * CELL), CELL * |code|)
  }

  /** A run of at most `n` instructions. */
  function Run(env: Env, code: seq<cell>, s: State, n: nat): Outcome
    decreases n
  {
    if n == 0 then Running(s) else
      match Step(env, code, s)
      case Running(t) => Run(env, code, t, n - 1)
      case o => o
  }
}

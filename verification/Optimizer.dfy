/**
  The float optimizer (optimizer.cpp): while the loader browses the code it asks a hook about
  every SYSREQ.C instruction, and the hook replaces calls of the float natives by the
  FLOAT.* instructions of the machine.
*/
module Optimizer {
  import opened Pawn
  import opened Wrappers

  const TOTAL_FLOAT_OPS := 7

  /** op_trans_table */
  const OP_TRANS_TABLE: seq<cell> :=
    [FLOAT_MUL, FLOAT_DIV, FLOAT_ADD, FLOAT_SUB, FLOAT_TO, FLOAT_ROUND, FLOAT_CMP]

  /** The native functions by name, in the order of the table. */
  const FLOAT_NAMES: seq<string> :=
    ["floatmul", "floatdiv", "floatadd", "floatsub", "float", "floatround", "floatcmp"]

  /** The first float operation that is bound to a native index. */
  function FloatOpFrom(natives: seq<int>, index: int, i: nat): (r: Option<nat>)
    requires |natives| == TOTAL_FLOAT_OPS && i <= TOTAL_FLOAT_OPS
    ensures r.Some? ==> i <= r.value < TOTAL_FLOAT_OPS && natives[r.value] == index
                        && forall k :: i <= k < r.value ==> natives[k] != index
    ensures r.None? ==> forall k :: i <= k < TOTAL_FLOAT_OPS ==> natives[k] != index
    decreases TOTAL_FLOAT_OPS - i
  {
    if i == TOTAL_FLOAT_OPS then None
    else if natives[i] == index then Some(i)
    else FloatOpFrom(natives, index, i + 1)
  }

  /** The float operation that a native index is bound to, if there is one. */
  function FloatOp(natives: seq<int>, index: int): (r: Option<nat>)
    requires |natives| == TOTAL_FLOAT_OPS
    ensures r.Some? ==> r.value < TOTAL_FLOAT_OPS && natives[r.value] == index
    ensures r.Some? <==> index in natives
  {
    FloatOpFrom(natives, index, 0)
  }

  /** The bit of the optimization level that enables a float operation. */
  function LevelBit(k: nat): nat
    requires k < TOTAL_FLOAT_OPS
  {
    if k < 4 then 1 else if k < 6 then 4 else 2
  }

  predicate BitSet(level: nat, bit: nat)
    requires bit > 0
  {
    level / bit % 2 == 1
  }

  /** What is bound to float operation `k`: an index of the native table `find`, or -1. */
  function Binding(level: nat, find: string -> Option<int>, cpu: bool, k: nat): int
    requires k < TOTAL_FLOAT_OPS
  {
    if BitSet(level, LevelBit(k)) && (k == 6 ==> cpu) then Found(find, k, -1) else -1
  }

  function Found(find: string -> Option<int>, k: nat, default: int): int
    requires k < TOTAL_FLOAT_OPS
  {
    match find(FLOAT_NAMES[k])
    case None => default
    case Some(index) => index
  }

  /** _Setup_Optimizer_Stage2: looks up the natives that the level enables; `cpu` tells
      whether the processor supports FLOAT.CMP. */
  method Setup(level0: nat, find: string -> Option<int>, cpu: bool) returns (natives: array<int>, level: nat)
    ensures fresh(natives) && natives.Length == TOTAL_FLOAT_OPS
    ensures forall k :: 0 <= k < TOTAL_FLOAT_OPS ==> natives[k] == Binding(level0, find, cpu, k)
    ensures level == if BitSet(level0, 2) && !cpu then level0 - 2 else level0
  {
    hide Found, BitSet;
    level := level0;
    natives := new int[TOTAL_FLOAT_OPS](_ => -1);
    if BitSet(level, 1) {
      FindNative(natives, find, 0);
      FindNative(natives, find, 1);
      FindNative(natives, find, 2);
      FindNative(natives, find, 3);
    }
    if BitSet(level, 4) {
      FindNative(natives, find, 4);
      FindNative(natives, find, 5);
    }
    if BitSet(level, 2) {
      if cpu {
        FindNative(natives, find, 6);
      } else {
        LevelTwo(level);
        level := level - 2;
      }
    }
  }

  function Named(find: string -> Option<int>, name: string, enabled: bool): int {
    if enabled && find(name).Some? then find(name).value else -1
  }

  /** Which native is bound to which instruction, and by which bit of the level. */
  lemma BindingsByName(level: nat, find: string -> Option<int>, cpu: bool, natives: seq<int>)
    requires |natives| == TOTAL_FLOAT_OPS && forall k :: 0 <= k < TOTAL_FLOAT_OPS ==> natives[k] == Binding(level, find, cpu, k)
    ensures natives == [
      Named(find, "floatmul", level % 2 == 1), Named(find, "floatdiv", level % 2 == 1),
      Named(find, "floatadd", level % 2 == 1), Named(find, "floatsub", level % 2 == 1),
      Named(find, "float", level / 4 % 2 == 1), Named(find, "floatround", level / 4 % 2 == 1),
      Named(find, "floatcmp", level / 2 % 2 == 1 && cpu)]
    ensures OP_TRANS_TABLE == [138, 139, 140, 141, 142, 143, 144]
  {
  }

  lemma LevelTwo(level: nat)
    requires BitSet(level, 2)
    ensures level >= 2
  {
  }

  method FindNative(natives: array<int>, find: string -> Option<int>, k: nat)
    requires natives.Length == TOTAL_FLOAT_OPS && k < TOTAL_FLOAT_OPS
    modifies natives
    ensures natives[k] == Found(find, k, old(natives[k]))
    ensures forall i :: 0 <= i < TOTAL_FLOAT_OPS && i != k ==> natives[i] == old(natives[i])
  {
    match find(FLOAT_NAMES[k])
    case Some(index) => natives[k] := index;
    case None =>
  }

  /** OnBrowseRelocate: `cip` is the operand of a SYSREQ.C instruction; returns the cell after
      it.  Cells are counted where the source counts bytes. */
  method OnBrowseRelocate(code: array<cell>, natives: array<int>, cip: nat) returns (next: nat)
    requires 0 < cip < code.Length && natives.Length == TOTAL_FLOAT_OPS
    modifies code
    ensures next == cip + 1
    ensures code[..] == match FloatOp(natives[..], old(code[cip]))
                        case None => old(code[..])
                        case Some(k) => old(code[..])[cip - 1 := OP_TRANS_TABLE[k]][cip := NOP]
  {
    var native := -1;
    var offs := code[cip];
    var i := 0;
    while i < TOTAL_FLOAT_OPS
      invariant 0 <= i <= TOTAL_FLOAT_OPS && native == -1
      invariant FloatOp(natives[..], offs) == FloatOpFrom(natives[..], offs, i)
      decreases TOTAL_FLOAT_OPS - i
    {
      if natives[i] == offs {
        native := i;
        break;
      }
      i := i + 1;
    }
    if native != -1 {
      code[cip - 1] := OP_TRANS_TABLE[native];
      code[cip] := NOP;
    }
    next := cip + 1;
  }
}

/**
  Browsing and relocating the code (amx.cpp, `amx_BrowseRelocate`).

  The loader walks the code once, from instruction to instruction.  It adds the address of
  the code to every jump operand and asks the optimizer about every SYSREQ.C.  Positions are
  counted in cells.
*/
module Relocation {
  import opened Pawn
  import opened Wrappers
  import opened Optimizer

  // ----- the walk over the original code -----

  /** The operand of the instruction at `i`, where there is one. */
  function Number(code: seq<cell>, i: nat): int {
    if i + 1 < |code| then code[i+1] else 0
  }

  /** The number of cells of the instruction at `i`; meaningful when its operands are in the code. */
  function Length(code: seq<cell>, i: nat): (n: int)
    requires i < |code|
  {
    match LayoutOf(code[i])
    case None => 0
    case Some(Plain) => 1
    case Some(Two) => 3
    case Some(Bytes) => 2 + Number(code, i) / CELL
    case Some(Table) => 2 * Number(code, i) + 3
    case Some(_) => 2
  }

  /** The instruction at `i` lies in the code; a byte count is a whole number of cells. */
  predicate Fits(code: seq<cell>, i: nat)
    requires i < |code|
  {
    && i + Length(code, i) <= |code|
    && (LayoutOf(code[i]) == Some(Bytes) || LayoutOf(code[i]) == Some(Table) ==>
          i + 1 < |code| && 0 <= Number(code, i) && (LayoutOf(code[i]) == Some(Bytes) ==> Number(code, i) % CELL == 0))
  }

  /** From `i` on the walk stays inside the code, up to the first unknown opcode. */
  predicate Readable(code: seq<cell>, i: nat)
    decreases |code| - i
  {
    i <= |code| &&
    (i == |code| || LayoutOf(code[i]).None? || (Fits(code, i) && Readable(code, i + Length(code, i))))
  }

  /** From `i` on the code is a sequence of whole, known instructions. */
  predicate Browsable(code: seq<cell>, i: nat): (b: bool)
    ensures b ==> Readable(code, i)
    decreases |code| - i
  {
    i <= |code| &&
    (i == |code| || (LayoutOf(code[i]).Some? && Fits(code, i) && Browsable(code, i + Length(code, i))))
  }

  /** The walk that starts at `i` visits `j`: `j` is an instruction boundary. */
  predicate Reaches(code: seq<cell>, i: nat, j: nat)
    decreases |code| - i
  {
    i == j || (i < |code| && i < j && LayoutOf(code[i]).Some? && Fits(code, i) && Reaches(code, i + Length(code, i), j))
  }

  predicate Boundary(code: seq<cell>, j: nat) { Reaches(code, 0, j) }

  /** `k` is a jump operand of the instruction at `i`. */
  predicate SlotOf(code: seq<cell>, i: nat, k: nat)
    requires i < |code|
  {
    match LayoutOf(code[i])
    case Some(Target) => k == i + 1
    case Some(Table) => i + 1 < k < i + Length(code, i) && (k - i) % 2 == 0
    case _ => false
  }

  // ----- what browsing does to one instruction -----

  type Hook = o: Option<seq<int>> | o.Some? ==> |o.value| == TOTAL_FLOAT_OPS witness None

  predicate Patched(code: seq<cell>, hook: Hook, i: nat) {
    i + 1 < |code| && code[i] == SYSREQ_C && hook.Some? && FloatOp(hook.value, code[i+1]).Some?
  }

  /** Which calls are replaced: those of a native whose index is bound. */
  lemma ReplacedCalls(code: seq<cell>, natives: seq<int>, i: nat)
    requires |natives| == TOTAL_FLOAT_OPS && i < |code|
    ensures !Patched(code, None, i)
    ensures Patched(code, Some(natives), i) <==> i + 1 < |code| && code[i] == 123 && code[i+1] in natives
  {
  }

  /** A case table is the opcode, the number of records, the default target and two cells for each
      record, the second of which is a target. */
  lemma TableCells(code: seq<cell>, i: nat)
    requires i < |code| && code[i] == CASETBL && Fits(code, i)
    ensures i + 1 < |code| && code[i+1] >= 0 && i + Length(code, i) == i + 3 + 2 * code[i+1] as int
    ensures forall k: nat :: SlotOf(code, i, k) <==> i + 2 <= k <= i + 2 + 2 * code[i+1] as int && (k - i) % 2 == 0
  {
  }

  function Rewritten(code: seq<cell>, base: int, hook: Hook, i: nat, k: nat): cell
    requires i <= k < |code|
  {
    if SlotOf(code, i, k) then Wrap(code[k] + base)
    else if Patched(code, hook, i) && k == i then OP_TRANS_TABLE[FloatOp(hook.value, code[i+1]).value]
    else if Patched(code, hook, i) && k == i + 1 then NOP
    else code[k]
  }

  function Instruction(code: seq<cell>, base: int, hook: Hook, i: nat): (cells: seq<cell>)
    requires i < |code| && Fits(code, i)
    ensures |cells| == Length(code, i)
  {
    seq<cell>(Length(code, i), d requires 0 <= d < Length(code, i) => Rewritten(code, base, hook, i, i + d))
  }

  /** The whole code after rewriting the instruction at `i`. */
  function RewriteAt(code: seq<cell>, base: int, hook: Hook, i: nat): (r: seq<cell>)
    requires i < |code|
    ensures |r| == |code|
  {
    seq<cell>(|code|, k requires 0 <= k < |code| => if i <= k < i + Length(code, i) then Rewritten(code, base, hook, i, k) else code[k])
  }

  /** The code from `i` on, after browsing. */
  function Browsed(code: seq<cell>, base: int, hook: Hook, i: nat): (r: seq<cell>)
    requires Readable(code, i)
    ensures |r| == |code| - i
    decreases |code| - i
  {
    if i == |code| || LayoutOf(code[i]).None? then code[i..]
    else Instruction(code, base, hook, i) + Browsed(code, base, hook, i + Length(code, i))
  }

  // ----- the loop of the loader -----

  method BrowseRelocate(code: array<cell>, base: int, natives: array?<int>) returns (err: int)
    requires natives != null ==> natives.Length == TOTAL_FLOAT_OPS
    requires Readable(code[..], 0)
    modifies code
    ensures var hook := if natives == null then None else Some(old(natives[..]));
            code[..] == Browsed(old(code[..]), base, hook, 0)
    ensures err == if Browsable(old(code[..]), 0) then ERR_NONE else ERR_INVINSTR
  {
    ghost var before := code[..];
    ghost var hook: Hook := if natives == null then None else Some(natives[..]);
    ghost var after := Browsed(before, base, hook, 0);
    var cip := 0;
    while cip < code.Length
      invariant natives != null ==> hook == Some(natives[..])
      invariant cip <= code.Length && Boundary(before, cip)
      invariant code[..] == after[..cip] + before[cip..]
      decreases code.Length - cip
    {
      ghost var now := code[..];
      ghost var end := BrowseStep(before, after, now, base, hook, cip);
      if LayoutOf(code[cip]).None? {
        return ERR_INVINSTR;
      }
      cip := BrowseInstruction(code, cip, base, natives, hook);
      assert cip == end;
    }
    WalkEnds(before, 0);
    err := ERR_NONE;
  }

  /** One round of the loop: rewrites the instruction at `cip`. */
  method BrowseInstruction(code: array<cell>, cip: nat, base: int, natives: array?<int>, ghost hook: Hook) returns (next: nat)
    requires cip < code.Length && LayoutOf(code[cip]).Some? && Fits(code[..], cip)
    requires natives != null ==> natives.Length == TOTAL_FLOAT_OPS
    requires hook == if natives == null then None else Some(natives[..])
    modifies code
    ensures next == cip + Length(old(code[..]), cip)
    ensures code[..] == RewriteAt(old(code[..]), base, hook, cip)
  {
    match LayoutOf(code[cip]).value
    case Plain => next := cip + 1;
    case Operand => next := cip + 2;
    case Target =>
      code[cip + 1] := Wrap(code[cip + 1] + base);
      next := cip + 2;
    case Native =>
      if natives != null {
        next := OnBrowseRelocate(code, natives, cip + 1);
      } else {
        next := cip + 2;
      }
    case Two => next := cip + 3;
    case Bytes => next := cip + 2 + code[cip + 1] / CELL;
    case Table =>
      next := RelocateTable(code, cip, base);
  }

  /** The case of CASETBL: the default target and that of every record. */
  method RelocateTable(code: array<cell>, cip: nat, base: int) returns (next: nat)
    requires cip < code.Length && LayoutOf(code[cip]) == Some(Table) && Fits(code[..], cip)
    modifies code
    ensures next == cip + Length(old(code[..]), cip)
    ensures forall k :: 0 <= k < code.Length ==>
      code[k] == if SlotOf(old(code[..]), cip, k) then Wrap(old(code[k]) + base) else old(code[k])
  {
    var num: int := code[cip + 1];
    var i: int := 0;
    while i <= num
      invariant 0 <= i <= num + 1
      invariant forall k :: 0 <= k < code.Length ==>
        code[k] == if SlotOf(old(code[..]), cip, k) && k < cip + 2 + 2 * i then Wrap(old(code[k]) + base) else old(code[k])
    {
      code[cip + 2 + 2 * i] := Wrap(code[cip + 2 + 2 * i] + base);
      i := i + 1;
    }
    next := cip + 3 + 2 * num;
  }

  /** A boundary cuts the browsed code where it cuts the code. */
  lemma {:induction false} WalkPasses(code: seq<cell>, base: int, hook: Hook, i: nat, j: nat)
    requires Reaches(code, i, j) && Readable(code, i)
    ensures i <= j && Readable(code, j) && Browsable(code, i) == Browsable(code, j)
    ensures Browsed(code, base, hook, i)[j - i..] == Browsed(code, base, hook, j)
    decreases |code| - i
  {
    if i < j {
      var n := Length(code, i);
      WalkPasses(code, base, hook, i + n, j);
      Behind(Instruction(code, base, hook, i), Browsed(code, base, hook, i + n), j - i);
    }
  }

  lemma {:induction false} BoundaryNext(code: seq<cell>, i: nat, j: nat)
    requires Reaches(code, i, j) && j < |code| && LayoutOf(code[j]).Some? && Fits(code, j)
    ensures Reaches(code, i, j + Length(code, j))
    decreases |code| - i
  {
    if i < j {
      BoundaryNext(code, i + Length(code, i), j);
    }
  }

  lemma Behind(front: seq<cell>, rest: seq<cell>, k: nat)
    requires |front| <= k <= |front| + |rest|
    ensures (front + rest)[k..] == rest[k - |front|..]
  {
  }

  /** The browsed code at an instruction boundary. */
  lemma BrowsedInstruction(code: seq<cell>, base: int, hook: Hook, i: nat)
    requires Readable(code, 0) && Boundary(code, i) && i < |code| && LayoutOf(code[i]).Some?
    ensures Fits(code, i)
    ensures forall k :: i <= k < i + Length(code, i) ==> Browsed(code, base, hook, 0)[k] == Rewritten(code, base, hook, i, k)
  {
    WalkPasses(code, base, hook, 0, i);
    var after, cells := Browsed(code, base, hook, 0), Instruction(code, base, hook, i);
    assert after[i..] == cells + Browsed(code, base, hook, i + Length(code, i));
    forall k | i <= k < i + Length(code, i)
      ensures after[k] == Rewritten(code, base, hook, i, k)
    {
      assert after[k] == after[i..][k - i] == cells[k - i];
    }
  }

  lemma BrowseStep(before: seq<cell>, after: seq<cell>, now: seq<cell>, base: int, hook: Hook, cip: nat) returns (next: nat)
    requires Readable(before, 0) && Boundary(before, cip) && cip < |before|
    requires after == Browsed(before, base, hook, 0) && now == after[..cip] + before[cip..]
    ensures LayoutOf(now[cip]).None? ==> now == after && !Browsable(before, 0)
    ensures LayoutOf(now[cip]).Some? ==>
      && cip < next == cip + Length(now, cip) <= |before| && Fits(now, cip) && Boundary(before, next)
      && RewriteAt(now, base, hook, cip) == after[..next] + before[next..]
  {
    hide Reaches, Rewritten;
    assert now[cip] == before[cip] && (cip + 1 < |now| ==> now[cip+1] == before[cip+1]);
    next := cip;
    if LayoutOf(before[cip]).None? {
      WalkPasses(before, base, hook, 0, cip);
      assert after[cip..] == before[cip..];
    } else {
      hide Browsed, Browsable;
      BrowsedInstruction(before, base, hook, cip);
      BoundaryNext(before, 0, cip);
      next := cip + Length(before, cip);
      forall k | cip <= k < next
        ensures Rewritten(now, base, hook, cip, k) == after[k]
      {
        SameRewriting(before, now, base, hook, cip, k);
      }
    }
  }

  /** Rewriting an instruction looks at its own cells only. */
  lemma SameRewriting(code: seq<cell>, code': seq<cell>, base: int, hook: Hook, i: nat, k: nat)
    requires |code| == |code'| && i <= k < |code| && code[i] == code'[i] && code[k] == code'[k]
    requires i + 1 < |code| ==> code[i+1] == code'[i+1]
    ensures Rewritten(code, base, hook, i, k) == Rewritten(code', base, hook, i, k)
  {
  }

  lemma WalkEnds(code: seq<cell>, i: nat)
    requires Reaches(code, i, |code|)
    ensures Browsable(code, i)
    decreases |code| - i
  {
    if i < |code| { WalkEnds(code, i + Length(code, i)); }
  }

  // ----- relocation is exact -----

  /** `k` is a jump operand of some instruction. */
  ghost predicate JumpSlot(code: seq<cell>, k: nat) {
    exists i: nat :: i < |code| && Boundary(code, i) && SlotOf(code, i, k)
  }

  /** A SYSREQ.C instruction that the optimizer replaces. */
  predicate PatchedAt(code: seq<cell>, hook: Hook, i: nat) {
    i < |code| && Boundary(code, i) && Patched(code, hook, i)
  }

  lemma {:induction false} ReachesForward(code: seq<cell>, i: nat, j: nat)
    requires i <= |code| && Reaches(code, i, j)
    ensures i <= j <= |code|
    decreases |code| - i
  {
    if i < j { ReachesForward(code, i + Length(code, i), j); }
  }

  lemma {:induction false} BoundariesApart(code: seq<cell>, i: nat, j: nat, k: nat)
    requires i <= |code| && Reaches(code, i, j) && Reaches(code, i, k) && j < k
    ensures j < |code| && LayoutOf(code[j]).Some? && Fits(code, j) && j + Length(code, j) <= k
    decreases |code| - i
  {
    if i < j {
      BoundariesApart(code, i + Length(code, i), j, k);
    } else {
      ReachesForward(code, i + Length(code, i), k);
    }
  }

  /** The instruction that holds cell `k`. */
  function Owner(code: seq<cell>, i: nat, k: nat): (o: nat)
    requires Browsable(code, i) && i <= k < |code|
    ensures i <= o <= k < o + Length(code, o) && LayoutOf(code[o]).Some? && Fits(code, o) && Reaches(code, i, o)
    decreases |code| - i
  {
    var n := Length(code, i);
    if k < i + n then i else Owner(code, i + n, k)
  }

  lemma OwnerUnique(code: seq<cell>, i: nat, j: nat, k: nat)
    requires i < |code| && j < |code| && Boundary(code, i) && Boundary(code, j)
    requires i <= k < i + Length(code, i) && j <= k < j + Length(code, j)
    ensures i == j
  {
    if i < j { BoundariesApart(code, 0, i, j); }
    if j < i { BoundariesApart(code, 0, j, i); }
  }

  /** The code base is added exactly once to every jump operand; the only other cells that
      change are those of the replaced calls. */
  lemma RelocatesExactly(code: seq<cell>, base: int, hook: Hook, k: nat)
    requires Browsable(code, 0) && k < |code|
    ensures Browsed(code, base, hook, 0)[k] ==
      if JumpSlot(code, k) then Wrap(code[k] + base)
      else if PatchedAt(code, hook, k) then OP_TRANS_TABLE[FloatOp(hook.value, code[k+1]).value]
      else if k > 0 && PatchedAt(code, hook, k - 1) then NOP
      else code[k]
  {
    hide Browsed, Browsable, Reaches;
    var i := Owner(code, 0, k);
    BrowsedInstruction(code, base, hook, i);
    if JumpSlot(code, k) {
      var j: nat :| j < |code| && Boundary(code, j) && SlotOf(code, j, k);
      OwnerUnique(code, i, j, k);
    }
    assert JumpSlot(code, k) == SlotOf(code, i, k);
    if PatchedAt(code, hook, k) { OwnerUnique(code, i, k, k); }
    if k > 0 && PatchedAt(code, hook, k - 1) { OwnerUnique(code, i, k - 1, k); }
  }
}

/**
  Calling a function of another plugin from a plugin (amxmodx.cpp, the callfunc natives).

  The parameters are collected in globals, one native call at a time.  A parameter that is
  passed by reference is copied into a block on the heap of the called plugin; a second push
  of the same address reuses the block of the first.
*/
module CallFunc {
  import opened Pawn
  import opened Wrappers
  import opened HostCalls
  import opened ForwardCalls

  const MAXPARAMS := 64

  /** A parameter: g_CallFunc_Params and g_CallFunc_ParamInfo at one index.  `ByAddress` has
      flag BYREF, `Reused` has flag BYREF_REUSED and refers to an earlier parameter. */
  datatype Entry =
    | ByValue(value: cell)
    | ByAddress(addr: cell, alloc: seq<cell>, copyback: bool)
    | Reused(addr: cell, first: nat)

  /** A reused parameter refers to an earlier one with its address; no address has two blocks. */
  predicate Consistent(es: seq<Entry>) {
    && (forall i :: 0 <= i < |es| && es[i].Reused? ==>
          es[i].first < i && es[es[i].first].ByAddress? && es[es[i].first].addr == es[i].addr)
    && (forall i, j :: 0 <= i < j < |es| && es[i].ByAddress? && es[j].ByAddress? ==> es[i].addr != es[j].addr)
  }

  /** The first parameter that has a block for the address. */
  function FindFrom(es: seq<Entry>, addr: cell, i: nat): (r: Option<nat>)
    requires i <= |es|
    ensures r.Some? ==> i <= r.value < |es| && es[r.value].ByAddress? && es[r.value].addr == addr
    ensures r.None? ==> forall k :: i <= k < |es| && es[k].ByAddress? ==> es[k].addr != addr
    decreases |es| - i
  {
    if i == |es| then None
    else if es[i].ByAddress? && es[i].addr == addr then Some(i)
    else FindFrom(es, addr, i + 1)
  }

  /** What a push by reference adds. */
  function Reference(es: seq<Entry>, addr: cell, cells: seq<cell>, copyback: bool): Entry {
    match FindFrom(es, addr, 0)
    case Some(i) => Reused(addr, i)
    case None => ByAddress(addr, cells, copyback)
  }

  lemma ReferenceConsistent(es: seq<Entry>, addr: cell, cells: seq<cell>, copyback: bool)
    requires Consistent(es)
    ensures Consistent(es + [Reference(es, addr, cells, copyback)])
  {
  }

  function BlockSize(e: Entry): nat {
    if e.ByAddress? then |e.alloc| else 0
  }

  /** The heap when the blocks of the parameters from `i` on are allotted, last one first. */
  function TopFrom(es: seq<Entry>, i: nat, hea: int): int
    requires i <= |es|
    decreases |es| - i
  {
    if i == |es| then hea else TopFrom(es, i + 1, hea) + CELL * BlockSize(es[i])
  }

  /** Where the block of parameter `i` is. */
  function BlockAt(es: seq<Entry>, i: nat, hea: int): int
    requires i < |es|
  {
    TopFrom(es, i + 1, hea)
  }

  /** The cell that the callee gets for parameter `i`. */
  function Received(es: seq<Entry>, i: nat, hea: int): int
    requires Consistent(es) && i < |es|
  {
    match es[i]
    case ByValue(v) => v
    case ByAddress(_, _, _) => BlockAt(es, i, hea)
    case Reused(_, first) => BlockAt(es, first, hea)
  }

  lemma {:induction false} TopsDescend(es: seq<Entry>, i: nat, j: nat, hea: int)
    requires i <= j <= |es|
    ensures hea <= TopFrom(es, j, hea) <= TopFrom(es, i, hea)
    decreases |es| - i
  {
    if i < j { TopsDescend(es, i + 1, j, hea); }
    else if i < |es| { TopsDescend(es, i + 1, |es|, hea); TopsDescend(es, i + 1, i + 1, hea); }
  }

  /** Blocks of different parameters are disjoint: that of the later one lies below. */
  lemma BlocksDescend(es: seq<Entry>, i: nat, j: nat, hea: int)
    requires i < j < |es|
    ensures hea <= BlockAt(es, j, hea) && BlockAt(es, j, hea) + CELL * BlockSize(es[j]) <= BlockAt(es, i, hea)
  {
    TopsDescend(es, i + 1, j, hea);
    TopsDescend(es, j + 1, |es|, hea);
  }

  /** The parameter that made the block. */
  function Maker(es: seq<Entry>, i: nat): (a: nat)
    requires Consistent(es) && i < |es| && !es[i].ByValue?
    ensures a <= i && es[a].ByAddress? && es[a].addr == es[i].addr
  {
    if es[i].Reused? then es[i].first else i
  }

  /** The blocks of the parameters `a..b` are all empty. */
  predicate EmptyBlocks(es: seq<Entry>, a: nat, b: nat)
    requires b <= |es|
  {
    forall k :: a <= k < b ==> BlockSize(es[k]) == 0
  }

  /** The callee sees one address per address of the caller: parameters pushed by reference get
      the same address exactly if the caller passed the same one, or if the blocks from the lower
      of the two to the upper one are of empty arrays. */
  lemma AliasingPreserved(es: seq<Entry>, i: nat, j: nat, hea: int)
    requires Consistent(es) && i < |es| && j < |es| && !es[i].ByValue? && !es[j].ByValue?
    ensures var a, b := Maker(es, i), Maker(es, j);
      Received(es, i, hea) == Received(es, j, hea)
      <==> es[i].addr == es[j].addr || EmptyBlocks(es, if a < b then a + 1 else b + 1, if a < b then b + 1 else a + 1)
  {
    var a, b := Maker(es, i), Maker(es, j);
    if a < b { SameTop(es, a + 1, b + 1, hea); }
    if b < a { SameTop(es, b + 1, a + 1, hea); }
  }

  lemma {:induction false} SameTop(es: seq<Entry>, a: nat, b: nat, hea: int)
    requires a <= b <= |es|
    ensures TopFrom(es, a, hea) == TopFrom(es, b, hea) <==> EmptyBlocks(es, a, b)
    decreases b - a
  {
    if a < b {
      SameTop(es, a + 1, b, hea);
      TopsDescend(es, a + 1, b, hea);
    }
  }

  // ----- the natives -----

  /** What the callee leaves in the globals when it uses callfunc itself, and in the memory of the
      calling plugin when that is another one. */
  datatype Aftermath = Aftermath(plugin: Amx?, func: int, curParam: nat, entries: seq<Entry>, callerMem: Memory)

  datatype EndResult = NoBegin | Undefined | Called(status: Status, retVal: cell)

  /** The ranges of the caller that are copied back do not overlap each other nor, when a
      plugin calls itself, the blocks. */
  predicate RangesApart(es: seq<Entry>, itself: bool, hea: int) {
    && (forall i, j :: 0 <= i < j < |es| && CopiesBack(es[i]) && CopiesBack(es[j]) ==> Apart(es[i], es[j].addr, es[j].addr + CELL * |es[j].alloc|))
    && (itself ==> forall i :: 0 <= i < |es| && CopiesBack(es[i]) ==> Apart(es[i], hea, TopFrom(es, 0, hea)))
  }

  predicate CopiesBack(e: Entry) { e.ByAddress? && e.copyback }

  predicate Apart(e: Entry, lo: int, hi: int)
    requires e.ByAddress?
  {
    e.addr + CELL * |e.alloc| <= lo || hi <= e.addr
  }

  ghost predicate BlocksFilled(es: seq<Entry>, from: nat, hea: int, mem: Memory)
    requires from <= |es|
  {
    forall i :: from <= i < |es| && es[i].ByAddress? ==> CellsIn(mem, BlockAt(es, i, hea), es[i].alloc)
  }

  // ----- what callfunc_end does, on machines -----

  /** The blocks of the parameters from `i` on, made and filled, last one first. */
  function BlocksMade(m: Machine, es: seq<Entry>, i: nat): Machine
    requires i <= |es|
    decreases |es| - i
  {
    if i == |es| then m
    else
      var n := BlocksMade(m, es, i + 1);
      if es[i].ByAddress? then Filled(n.(hea := Wrap(n.hea + CELL * |es[i].alloc|)), n.hea, es[i].alloc) else n
  }

  predicate BlockFits(es: seq<Entry>, j: nat, hea: int, stk: int)
    requires j < |es|
  {
    TopFrom(es, j, hea) + STKMARGIN <= stk
  }

  /** The blocks from `i` on fit between heap and stack. */
  predicate AllFit(es: seq<Entry>, i: nat, hea: int, stk: int)
    requires i <= |es|
  {
    forall j :: i <= j < |es| && es[j].ByAddress? ==> BlockFits(es, j, hea, stk)
  }

  predicate HasBlocks(es: seq<Entry>) { exists i :: 0 <= i < |es| && es[i].ByAddress? }

  /** When the blocks fit: there are none, or all of them together leave the margin free. */
  lemma AllFitExactly(es: seq<Entry>, hea: int, stk: int)
    ensures AllFit(es, 0, hea, stk) <==> !HasBlocks(es) || TopFrom(es, 0, hea) + STKMARGIN <= stk
  {
    if TopFrom(es, 0, hea) + STKMARGIN <= stk {
      forall j | 0 <= j < |es| ensures BlockFits(es, j, hea, stk) {
        TopsDescend(es, 0, j, hea);
      }
    } else if HasBlocks(es) {
      var j := FirstBlock(es, 0);
      NothingBefore(es, 0, j, hea);
      assert !BlockFits(es, j, hea, stk);
    }
  }

  function FirstBlock(es: seq<Entry>, i: nat): (j: nat)
    requires i <= |es| && exists k :: i <= k < |es| && es[k].ByAddress?
    ensures i <= j < |es| && es[j].ByAddress? && forall k :: i <= k < j ==> !es[k].ByAddress?
    decreases |es| - i
  {
    if es[i].ByAddress? then i else FirstBlock(es, i + 1)
  }

  lemma {:induction false} NothingBefore(es: seq<Entry>, i: nat, j: nat, hea: int)
    requires i <= j <= |es| && forall k :: i <= k < j ==> !es[k].ByAddress?
    ensures TopFrom(es, i, hea) == TopFrom(es, j, hea)
    decreases j - i
  {
    if i < j { NothingBefore(es, i + 1, j, hea); }
  }

  function ReceivedCells(es: seq<Entry>, hea: int): (cells: seq<cell>)
    requires Consistent(es)
    ensures |cells| == |es|
  {
    seq<cell>(|es|, i requires 0 <= i < |es| => Wrap(Received(es, i, hea)))
  }

  /** The machine when the function is called. */
  function StartOf(m: Machine, es: seq<Entry>): Machine
    requires Consistent(es)
  {
    AfterPushes(BlocksMade(m, es, 0), ReceivedCells(es, m.hea))
  }

  /** All blocks released, highest one first. */
  function BlocksReleased(m: Machine, es: seq<Entry>, hea: cell): Machine {
    if HasBlocks(es) then Released(m, hea) else m
  }

  lemma {:induction false} BlocksKeep(m: Machine, es: seq<Entry>, i: nat)
    requires i <= |es| && AllFit(es, i, m.hea, m.stk)
    ensures var p := BlocksMade(m, es, i);
      && p == m.(hea := p.hea, mem := p.mem, faulted := p.faulted) && p.hea == TopFrom(es, i, m.hea) >= m.hea
      && p.mem.Keys == m.mem.Keys && (m.faulted ==> p.faulted)
    decreases |es| - i
  {
    hide Filled, Wrap;
    if i < |es| {
      BlocksKeep(m, es, i + 1);
      if es[i].ByAddress? {
        var n := BlocksMade(m, es, i + 1);
        assert BlockFits(es, i, m.hea, m.stk);
        WrapCell(n.hea + CELL * |es[i].alloc|);
        FilledHolds(n.(hea := Wrap(n.hea + CELL * |es[i].alloc|)), n.hea, es[i].alloc);
      }
    }
  }

  lemma {:induction false} BlocksHold(m: Machine, es: seq<Entry>, i: nat)
    requires i <= |es| && AllFit(es, i, m.hea, m.stk)
    ensures var p := BlocksMade(m, es, i); !p.faulted ==> BlocksFilled(es, i, m.hea, p.mem)
    decreases |es| - i
  {
    hide Filled, CellsIn, Wrap, TopFrom;
    if i < |es| {
      BlocksHold(m, es, i + 1);
      BlocksKeep(m, es, i + 1);
      if es[i].ByAddress? {
        var n, p := BlocksMade(m, es, i + 1), BlocksMade(m, es, i);
        FilledHolds(n.(hea := Wrap(n.hea + CELL * |es[i].alloc|)), n.hea, es[i].alloc);
        if !p.faulted { OneMoreFilled(es, i, m.hea, n.mem, p.mem); }
      }
    }
  }

  lemma OneMoreFilled(es: seq<Entry>, i: nat, hea: int, before: Memory, after: Memory)
    requires i < |es| && es[i].ByAddress? && BlocksFilled(es, i + 1, hea, before)
    requires CellsIn(after, BlockAt(es, i, hea), es[i].alloc) && after.Keys == before.Keys
    requires forall x :: x in before && !(BlockAt(es, i, hea) <= x < BlockAt(es, i, hea) + CELL * |es[i].alloc|) ==> after[x] == before[x]
    ensures BlocksFilled(es, i, hea, after)
  {
    hide CellsIn, TopFrom;
    forall j | i < j < |es| && es[j].ByAddress?
      ensures CellsIn(after, BlockAt(es, j, hea), es[j].alloc)
    {
      BlocksDescend(es, i, j, hea);
      StillHolds(before, after, BlockAt(es, j, hea), es[j].alloc, BlockAt(es, i, hea));
    }
  }

  /** There is room for the blocks and for all pushes behind them. */
  predicate RoomToPush(es: seq<Entry>, hea: int, stk: int) {
    es == [] || TopFrom(es, 0, hea) + STKMARGIN + CELL * (|es| - 1) <= stk
  }

  lemma StartRegisters(m: Machine, es: seq<Entry>)
    requires Consistent(es) && AllFit(es, 0, m.hea, m.stk)
    ensures var e := StartOf(m, es);
      && e.hea == TopFrom(es, 0, m.hea) >= m.hea && Base(e) == Base(m)
      && (e.stk == m.stk || e.stk >= e.hea + STKMARGIN - CELL)
      && if RoomToPush(es, m.hea, m.stk) then e.stk == m.stk - CELL * |es| && e.paramcount == m.paramcount + |es|
         else e.hea + STKMARGIN > e.stk
  {
    hide AfterPushes, BlocksMade, TopFrom, ReceivedCells, AllFit;
    var p, cells := BlocksMade(m, es, 0), ReceivedCells(es, m.hea);
    BlocksKeep(m, es, 0);
    PushesConserve(p, cells);
    RoomForAll(p, cells);
  }

  /** Addresses of blocks that fit are cells. */
  lemma ReceivedAddresses(m: Machine, es: seq<Entry>)
    requires Consistent(es) && AllFit(es, 0, m.hea, m.stk)
    ensures forall i :: 0 <= i < |es| ==> ReceivedCells(es, m.hea)[i] == Received(es, i, m.hea)
  {
    hide TopFrom;
    forall i | 0 <= i < |es| ensures ReceivedCells(es, m.hea)[i] == Received(es, i, m.hea) {
      if !es[i].ByValue? {
        var a := Maker(es, i);
        assert BlockFits(es, a, m.hea, m.stk);
        TopsDescend(es, a, a + 1, m.hea);
      }
      WrapCell(Received(es, i, m.hea));
    }
  }

  /** The callee starts with the copies in the blocks and the parameters on its stack. */
  lemma StartDelivers(m: Machine, es: seq<Entry>)
    requires Consistent(es) && AllFit(es, 0, m.hea, m.stk) && RoomToPush(es, m.hea, m.stk)
    ensures var e := StartOf(m, es);
      && e.stk == m.stk - CELL * |es| && e.paramcount == m.paramcount + |es|
      && (!e.faulted ==> BlocksFilled(es, 0, m.hea, e.mem) && Stacked(es, m.hea, e.mem, e.stk))
  {
    hide AfterPushes, BlocksMade, TopFrom, ReceivedCells, AllFit, BlocksFilled, CellsIn, Received;
    var p, cells, e := BlocksMade(m, es, 0), ReceivedCells(es, m.hea), StartOf(m, es);
    StartRegisters(m, es);
    BlocksKeep(m, es, 0);
    BlocksHold(m, es, 0);
    PushesConserve(p, cells);
    NoEntries(es, m.hea);
    ArgumentsPushed(p, cells);
    ReceivedAddresses(m, es);
    if !e.faulted {
      BlocksStay(es, m.hea, p.mem, e.mem);
    }
  }

  lemma NoEntries(es: seq<Entry>, hea: int)
    ensures es == [] ==> TopFrom(es, 0, hea) == hea
  {
  }

  /** Whatever the callee does, a call that ends leaves its stack above the parameters that were
      waiting and its heap where it was.  Without room for the pushes nothing is executed. */
  lemma EndConserves(cfg: Config, m: Machine, es: seq<Entry>, func: int, fuel: nat)
    requires Consistent(es) && AllFit(es, 0, m.hea, m.stk) && 0 <= m.stk
    ensures var o := Executed(cfg, StartOf(m, es), func, fuel);
      var last := BlocksReleased(o.m, es, m.hea);
      && (o.status.Ended? ==> last.stk == Base(m) && last.hea == m.hea)
      && (!RoomToPush(es, m.hea, m.stk) ==> o.status.Refused? || o.status == Bailed(ERR_STACKERR))
  {
    hide StartOf, Executed, TopFrom, AllFit, Base, Consistent;
    var e := StartOf(m, es);
    StartRegisters(m, es);
    CallConserves(cfg, e, func, fuel);
    NoBlockNoSize(es, m.hea);
    if !RoomToPush(es, m.hea, m.stk) { NoRoom(cfg, e, func, fuel); }
  }

  /** A call gives the primary register at the callee's HALT; 0 if it does not get to one. */
  lemma EndReturns(cfg: Config, m: Machine, es: seq<Entry>, func: int, fuel: nat)
    requires Consistent(es)
    ensures Executed(cfg, StartOf(m, es), func, fuel).retval == ReturnedBy(HaltState(cfg, StartOf(m, es), func, fuel))
  {
    hide StartOf, Executed, HaltState;
    ExecutedReturns(cfg, StartOf(m, es), func, fuel);
  }

  lemma NoBlockNoSize(es: seq<Entry>, hea: int)
    ensures !HasBlocks(es) ==> TopFrom(es, 0, hea) == hea
  {
    if !HasBlocks(es) { NothingBefore(es, 0, |es|, hea); }
  }

  // ----- the passes of callfunc_end -----

  /** First pass: allots and fills the blocks, last parameter first. */
  method PrepareBlocks(callee: Amx, es: seq<Entry>, gparams: array<cell>) returns (ok: bool)
    requires |es| <= gparams.Length && Consistent(es)
    modifies callee`hea, callee`mem, callee`faulted, gparams
    ensures ok <==> AllFit(es, 0, old(callee.hea), old(callee.stk))
    ensures ok ==> callee.Current() == BlocksMade(old(callee.Current()), es, 0)
    ensures ok ==> forall i :: 0 <= i < |es| && es[i].ByAddress? ==> gparams[i] == BlockAt(es, i, old(callee.hea))
    ensures forall i :: 0 <= i < gparams.Length && (i < |es| ==> !es[i].ByAddress?) ==> gparams[i] == old(gparams[i])
  {
    hide Filled, TopFrom, Consistent;
    ghost var m := callee.Current();
    var i := |es|;
    while i > 0
      invariant 0 <= i <= |es|
      invariant AllFit(es, i, m.hea, m.stk) && callee.Current() == BlocksMade(m, es, i)
      invariant forall j :: i <= j < |es| && es[j].ByAddress? ==> gparams[j] == BlockAt(es, j, m.hea)
      invariant forall j :: 0 <= j < gparams.Length && (j < i || (j < |es| ==> !es[j].ByAddress?)) ==> gparams[j] == old(gparams[j])
    {
      BlocksKeep(m, es, i);
      i := i - 1;
      if es[i].ByAddress? {
        var fits, addr := MakeBlock(callee, |es[i].alloc|);
        OneBlock(es, i, m.hea, m.stk);
        if !fits { return false; }
        WriteBlock(callee, addr, es[i].alloc);
        gparams[i] := addr;
      }
    }
    ok := true;
  }

  lemma OneBlock(es: seq<Entry>, i: nat, hea: int, stk: int)
    requires i < |es| && es[i].ByAddress?
    ensures BlockFits(es, i, hea, stk) <==> BlockAt(es, i, hea) + CELL * |es[i].alloc| + STKMARGIN <= stk
  {
  }

  /** Second pass: links the reused parameters to the block of the first. */
  method LinkReused(es: seq<Entry>, gparams: array<cell>, ghost hea: int)
    requires |es| <= gparams.Length && Consistent(es)
    requires forall i :: 0 <= i < |es| ==>
      gparams[i] == match es[i] case ByValue(v) => v case ByAddress(_, _, _) => BlockAt(es, i, hea) case Reused(_, first) => first
    modifies gparams
    ensures forall i :: 0 <= i < |es| ==> gparams[i] == Received(es, i, hea)
  {
    var i := |es|;
    while i > 0
      invariant 0 <= i <= |es|
      invariant forall j :: i <= j < |es| ==> gparams[j] == Received(es, j, hea)
      invariant forall j :: 0 <= j < i ==> gparams[j] == old(gparams[j])
    {
      i := i - 1;
      if es[i].Reused? {
        assert gparams[i] == es[i].first;
        gparams[i] := gparams[gparams[i]];
      }
    }
  }

  method CopyOne(caller: Amx, callee: Amx, e: Entry, block: cell)
    requires e.ByAddress?
    modifies caller`mem, caller`faulted
    ensures (old(caller.faulted) ==> caller.faulted) && caller.mem.Keys == old(caller.mem).Keys
    ensures !caller.faulted ==> CellsIn(caller.mem, e.addr, CellsAt(old(callee.mem), block, |e.alloc|))
    ensures forall x :: x in old(caller.mem) && !InRange(e, x) ==> caller.mem[x] == old(caller.mem)[x]
  {
    hide CellsIn, Filled;
    var cells := CellsAt(callee.mem, block, |e.alloc|);
    FilledHolds(caller.Current(), e.addr, cells);
    WriteBlock(caller, e.addr, cells);
  }

  /** Last pass: copies the blocks back to the caller and releases them. */
  method CopyBack(caller: Amx, callee: Amx, es: seq<Entry>, gparams: array<cell>, ghost hea: cell)
    requires |es| <= gparams.Length && Consistent(es)
    requires forall i :: 0 <= i < |es| && es[i].ByAddress? ==> gparams[i] == BlockAt(es, i, hea)
    modifies caller`mem, caller`faulted, callee`hea
    ensures callee.Current() == BlocksReleased(old(callee.Current()), es, hea).(mem := callee.mem, faulted := callee.faulted)
    ensures old(caller.faulted) ==> caller.faulted
    ensures caller.mem.Keys == old(caller.mem).Keys
    ensures !caller.faulted && RangesApart(es, caller == callee, hea) ==> Copied(es, |es|, hea, caller.mem, old(callee.mem))
    ensures forall x :: x in caller.mem && OutsideRanges(es, |es|, x) ==> caller.mem[x] == old(caller.mem)[x]
  {
    hide CellsIn, CellsAt, Consistent, TopFrom, Copied, RangesApart, OutsideRanges, HasBlocks, InRange;
    ghost var top, calleeMem := callee.hea, callee.mem;
    var i := 0;
    NothingYet(es, hea, caller.mem, calleeMem);
    while i < |es|
      invariant 0 <= i <= |es|
      invariant old(caller.faulted) ==> caller.faulted
      invariant callee.hea == (if HasBlocks(es[..i]) && top > TopFrom(es, i, hea) then TopFrom(es, i, hea) else top)
      invariant caller.mem.Keys == old(caller.mem).Keys
      invariant caller != callee ==> callee.mem == calleeMem
      invariant !caller.faulted && RangesApart(es, caller == callee, hea) ==> Copied(es, i, hea, caller.mem, calleeMem)
      invariant forall x :: x in caller.mem && OutsideRanges(es, i, x) ==> caller.mem[x] == old(caller.mem)[x]
    {
      NextReleased(es, i, hea);
      ghost var before := caller.mem;
      if es[i].ByAddress? {
        if RangesApart(es, caller == callee, hea) {
          SameBlock(es, i, hea, caller == callee, callee.mem, calleeMem);
        }
        if es[i].copyback {
          CopyOne(caller, callee, es[i], gparams[i]);
        }
        callee.ReleaseTo(gparams[i]);
      }
      StillOutside(es, i, old(caller.mem), before, caller.mem);
      if !caller.faulted && RangesApart(es, caller == callee, hea) {
        OneMoreCopied(es, i, hea, caller == callee, before, caller.mem, calleeMem);
      }
      i := i + 1;
    }
    assert es[..|es|] == es;
    NoEntriesLeft(es, hea);
  }

  /** The cell `x` is in none of the ranges of the first `n` parameters that are copied back. */
  predicate OutsideRanges(es: seq<Entry>, n: nat, x: int)
    requires n <= |es|
  {
    forall i :: 0 <= i < n && CopiesBack(es[i]) ==> !InRange(es[i], x)
  }

  predicate InRange(e: Entry, x: int)
    requires e.ByAddress?
  {
    e.addr <= x < e.addr + CELL * |e.alloc|
  }

  ghost predicate Copied(es: seq<Entry>, n: nat, hea: int, callerMem: Memory, calleeMem: Memory)
    requires n <= |es|
  {
    forall i :: 0 <= i < n && CopiesBack(es[i]) ==>
      CellsIn(callerMem, es[i].addr, CellsAt(calleeMem, BlockAt(es, i, hea), |es[i].alloc|))
  }

  lemma NothingYet(es: seq<Entry>, hea: int, callerMem: Memory, calleeMem: Memory)
    ensures Copied(es, 0, hea, callerMem, calleeMem) && !HasBlocks(es[..0])
  {
  }

  lemma NoEntriesLeft(es: seq<Entry>, hea: int)
    ensures TopFrom(es, |es|, hea) == hea
  {
  }

  lemma NextReleased(es: seq<Entry>, i: nat, hea: int)
    requires i < |es|
    ensures HasBlocks(es[..i+1]) <==> HasBlocks(es[..i]) || es[i].ByAddress?
    ensures BlockAt(es, i, hea) == TopFrom(es, i + 1, hea) <= TopFrom(es, i, hea)
    ensures !es[i].ByAddress? ==> TopFrom(es, i + 1, hea) == TopFrom(es, i, hea)
  {
    assert es[..i+1] == es[..i] + [es[i]];
    if HasBlocks(es[..i]) {
      var k :| 0 <= k < i && es[..i][k].ByAddress?;
      assert es[..i+1][k].ByAddress?;
    }
    if es[i].ByAddress? { assert es[..i+1][i].ByAddress?; }
  }

  lemma StillOutside(es: seq<Entry>, i: nat, first: Memory, before: Memory, after: Memory)
    requires i < |es| && first.Keys == before.Keys == after.Keys
    requires forall x :: x in before && OutsideRanges(es, i, x) ==> before[x] == first[x]
    requires forall x :: x in before && !(CopiesBack(es[i]) && InRange(es[i], x)) ==> after[x] == before[x]
    ensures forall x :: x in after && OutsideRanges(es, i + 1, x) ==> after[x] == first[x]
  {
    hide InRange;
    forall x | x in after && OutsideRanges(es, i + 1, x) ensures after[x] == first[x] {
      assert OutsideRanges(es, i, x);
    }
  }

  /** The blocks are out of the way of the ranges, so that copying leaves them as they were. */
  lemma SameBlock(es: seq<Entry>, i: nat, hea: int, itself: bool, now: Memory, before: Memory)
    requires i < |es| && es[i].ByAddress? && RangesApart(es, itself, hea)
    requires if itself then now.Keys == before.Keys && forall x :: x in now && OutsideRanges(es, i, x) ==> now[x] == before[x]
             else now == before
    ensures var n := |es[i].alloc|; CellsAt(now, BlockAt(es, i, hea), n) == CellsAt(before, BlockAt(es, i, hea), n)
  {
    hide TopFrom, BlockAt;
    if itself {
      BlockInside(es, i, hea);
      forall x | BlockAt(es, i, hea) <= x < BlockAt(es, i, hea) + CELL * |es[i].alloc|
        ensures OutsideRanges(es, i, x)
      {
        forall j | 0 <= j < i && CopiesBack(es[j]) ensures !InRange(es[j], x) {
          assert Apart(es[j], hea, TopFrom(es, 0, hea));
        }
      }
    }
  }

  lemma BlockInside(es: seq<Entry>, i: nat, hea: int)
    requires i < |es| && es[i].ByAddress?
    ensures hea <= BlockAt(es, i, hea) && BlockAt(es, i, hea) + CELL * |es[i].alloc| <= TopFrom(es, 0, hea)
  {
    TopsDescend(es, 0, i, hea);
    TopsDescend(es, i + 1, |es|, hea);
  }

  /** Copying one block leaves the copies made before as they are. */
  lemma OneMoreCopied(es: seq<Entry>, i: nat, hea: int, itself: bool, before: Memory, after: Memory, calleeMem: Memory)
    requires i < |es| && RangesApart(es, itself, hea) && Copied(es, i, hea, before, calleeMem) && after.Keys == before.Keys
    requires if CopiesBack(es[i]) then
               && CellsIn(after, es[i].addr, CellsAt(calleeMem, BlockAt(es, i, hea), |es[i].alloc|))
               && forall x :: x in before && !InRange(es[i], x) ==> after[x] == before[x]
             else after == before
    ensures Copied(es, i + 1, hea, after, calleeMem)
  {
    hide TopFrom, CellsAt, BlockAt;
    forall j | 0 <= j < i && CopiesBack(es[j])
      ensures CellsIn(after, es[j].addr, CellsAt(calleeMem, BlockAt(es, j, hea), |es[j].alloc|))
    {
      assert CellsIn(before, es[j].addr, CellsAt(calleeMem, BlockAt(es, j, hea), |es[j].alloc|));
      assert CopiesBack(es[i]) ==> Apart(es[j], es[i].addr, es[i].addr + CELL * |es[i].alloc|);
    }
  }

  class Globals {
    var plugin: Amx?
    var func: int
    var entries: seq<Entry>
    var curParam: nat

    ghost predicate Valid()
      reads this
    {
      |entries| == MAXPARAMS && curParam <= MAXPARAMS && Consistent(entries[..curParam])
    }

    /** callfunc_begin, with the plugin and the function that it looks up. */
    method Begin(target: Amx?, public: Option<int>) returns (r: cell)
      requires Valid()
      modifies this
      ensures Valid()
      ensures r == if old(plugin) != null then 0 else if target == null then -1 else if public.None? then -2 else 1
      ensures r == 1 ==> plugin == target && func == public.value && curParam == 0
      ensures r != 1 ==> plugin == old(plugin) && func == old(func) && curParam == old(curParam)
    {
      if plugin != null { return 0; }
      if target == null { return -1; }
      match public {
        case None => return -2;
        case Some(f) =>
          plugin, func, curParam := target, f, 0;
          return 1;
      }
    }

    method Append(e: Entry)
      requires Valid() && curParam < MAXPARAMS && Consistent(entries[..curParam] + [e])
      modifies this
      ensures Valid() && plugin == old(plugin) && func == old(func)
      ensures curParam == old(curParam) + 1 && entries[..curParam] == old(entries[..curParam]) + [e]
    {
      entries := entries[curParam := e];
      curParam := curParam + 1;
      assert entries[..curParam] == old(entries[..curParam]) + [e];
    }

    /** callfunc_push_byval */
    method PushByVal(value: cell)
      requires Valid()
      modifies this
      ensures Valid() && plugin == old(plugin) && func == old(func)
      ensures entries[..curParam] ==
        old(entries[..curParam]) + if old(plugin) != null && old(curParam) < MAXPARAMS then [ByValue(value)] else []
    {
      if plugin == null || curParam == MAXPARAMS { return; }
      Append(ByValue(value));
    }

    /** callfunc_push_byref (one cell, copied back) and callfunc_push_array. */
    method PushReference(caller: Amx, addr: cell, size: nat, copyback: bool)
      requires Valid()
      modifies this
      ensures Valid() && plugin == old(plugin) && func == old(func)
      ensures entries[..curParam] ==
        old(entries[..curParam]) +
        if old(plugin) != null && old(curParam) < MAXPARAMS
        then [Reference(old(entries[..curParam]), addr, CellsAt(caller.mem, addr, size), copyback)] else []
    {
      if plugin == null || curParam == MAXPARAMS { return; }
      ghost var es := entries[..curParam];
      ghost var e := Reference(es, addr, CellsAt(caller.mem, addr, size), copyback);
      ReferenceConsistent(es, addr, CellsAt(caller.mem, addr, size), copyback);
      var i := 0;
      while i < curParam
        invariant 0 <= i <= curParam && FindFrom(es, addr, 0) == FindFrom(es, addr, i)
      {
        if entries[i].ByAddress? && entries[i].addr == addr {
          assert es[i] == entries[i];
          Append(Reused(addr, i));
          return;
        }
        assert es[i] == entries[i];
        i := i + 1;
      }
      Append(ByAddress(addr, CellsAt(caller.mem, addr, size), copyback));
    }

    /** callfunc_end.  While the function runs, its own use of callfunc may leave anything in
        the globals and in the memory of another calling plugin (`after`); this call works on
        copies. */
    method End(caller: Amx, fuel: nat, after: Aftermath) returns (r: EndResult)
      requires Valid() && (plugin != null ==> func != EXEC_CONT)
      requires |after.entries| == MAXPARAMS && after.curParam <= MAXPARAMS && Consistent(after.entries[..after.curParam])
      modifies this, caller, if plugin == null then {} else {plugin}
      ensures Valid()
      ensures r.NoBegin? <==> old(plugin) == null
      ensures r.Undefined? <==>
        old(plugin) != null && !AllFit(old(entries[..curParam]), 0, old(plugin.hea), old(plugin.stk))
      ensures r.Called? ==>
        var callee, es, hea := old(plugin), old(entries[..curParam]), old(plugin.hea);
        var o := Executed(callee.cfg, StartOf(old(plugin.Current()), es), old(func), fuel);
        && r.status == o.status && r.retVal == o.retval
        && callee.Current() == BlocksReleased(o.m, es, hea).(mem := callee.mem, faulted := callee.faulted)
        && (caller != callee ==> callee.mem == o.m.mem && callee.faulted == o.m.faulted)
        && (!caller.faulted && RangesApart(es, caller == callee, hea) ==> Copied(es, |es|, hea, caller.mem, o.m.mem))
        && (forall x :: x in caller.mem && OutsideRanges(es, |es|, x) ==>
              var was := if caller == callee then o.m.mem else after.callerMem;
              x in was && caller.mem[x] == was[x])
      ensures r.Called? && caller != old(plugin) ==>
        caller.Current() == old(caller.Current()).(mem := caller.mem, faulted := caller.faulted)
      ensures r.Called? ==> plugin == after.plugin && func == after.func && curParam == after.curParam && entries == after.entries
    {
      hide BlocksFilled, CellsIn, Copied, RangesApart, TopFrom, OutsideRanges, Consistent, AllFit, StartOf, Executed;
      hide BlocksReleased;
      if plugin == null { return NoBegin; }
      var callee, f := plugin, func;
      var es := entries[..curParam];
      ghost var hea := callee.hea;
      plugin, curParam := null, 0;
      NothingConsistent(entries);
      var ok, gparams := Deliver(callee, es);
      if !ok { return Undefined; }
      var status, retVal := callee.Exec(f, fuel);
      plugin, func, curParam, entries := after.plugin, after.func, after.curParam, after.entries;
      if caller != callee { caller.mem := after.callerMem; }
      CopyBack(caller, callee, es, gparams, hea);
      r := EndResult.Called(status, retVal);
    }
  }

  lemma NothingConsistent(es: seq<Entry>)
    ensures Consistent(es[..0])
  {
  }

  /** The first two passes and the pushes. */
  method Deliver(callee: Amx, es: seq<Entry>) returns (ok: bool, gparams: array<cell>)
    requires |es| <= MAXPARAMS && Consistent(es)
    modifies callee`hea, callee`stk, callee`mem, callee`faulted, callee`paramcount, callee`history
    ensures fresh(gparams) && gparams.Length == MAXPARAMS
    ensures ok <==> AllFit(es, 0, old(callee.hea), old(callee.stk))
    ensures ok ==> callee.Current() == StartOf(old(callee.Current()), es)
    ensures ok ==> forall i :: 0 <= i < |es| && es[i].ByAddress? ==> gparams[i] == BlockAt(es, i, old(callee.hea))
  {
    hide TopFrom, BlocksMade, AllFit, AfterPushes;
    ghost var m := callee.Current();
    gparams := new cell[MAXPARAMS](i requires 0 <= i < MAXPARAMS => if i < |es| then Initial(es[i]) else 0);
    ok := PrepareBlocks(callee, es, gparams);
    if !ok { return; }
    LinkReused(es, gparams, m.hea);
    ReceivedAddresses(m, es);
    assert gparams[..|es|] == ReceivedCells(es, m.hea);
    PushAll(callee, |es|, gparams);
  }

  /** What g_CallFunc_Params holds for a parameter before callfunc_end. */
  function Initial(e: Entry): cell
    requires e.Reused? ==> e.first < MAXPARAMS
  {
    match e
    case ByValue(v) => v
    case ByAddress(_, _, _) => 0
    case Reused(_, first) => first
  }

  /** The parameters on the callee's stack, first one on top. */
  ghost predicate Stacked(es: seq<Entry>, hea: int, mem: Memory, stk: int)
    requires Consistent(es)
  {
    exists cells :: |cells| == |es| && CellsIn(mem, stk, cells) && forall i :: 0 <= i < |es| ==> cells[i] == Received(es, i, hea)
  }

  lemma BlocksStay(es: seq<Entry>, hea: int, before: Memory, after: Memory)
    requires BlocksFilled(es, 0, hea, before) && after.Keys == before.Keys
    requires forall x :: x in before && x < TopFrom(es, 0, hea) ==> after[x] == before[x]
    ensures BlocksFilled(es, 0, hea, after)
  {
    forall i | 0 <= i < |es| && es[i].ByAddress?
      ensures CellsIn(after, BlockAt(es, i, hea), es[i].alloc)
    {
      TopsDescend(es, 0, i, hea);
      StillHolds(before, after, BlockAt(es, i, hea), es[i].alloc, TopFrom(es, 0, hea));
    }
  }
}

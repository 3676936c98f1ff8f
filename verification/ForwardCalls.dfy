/**
  Marshalling the parameters of a forward (CForward.cpp, `CForward::execute` and
  `CSPForward::execute`).

  Strings, arrays and by-reference cells are copied into blocks on the heap of the called
  plugin, the parameters are pushed in reverse order, the function runs, and the blocks are
  copied back and released.
*/
module ForwardCalls {
  import opened Pawn
  import opened Wrappers
  import opened HostCalls

  type char8 = c: int | 0 <= c < 0x100

  const STRINGEX_MAXLENGTH := 128
  const FORWARD_MAX_PARAMS := 32

  /** A host parameter, by its declared type and with the host object that it points to. */
  datatype Param =
    | Cell(value: cell)                              // FP_CELL, FP_FLOAT
    | Text(text: seq<char8>)                         // FP_STRING
    | TextEx(text: seq<char8>)                       // FP_STRINGEX
    | CellArray(cells: seq<cell>, copyBack: bool)    // FP_ARRAY, Type_Cell
    | CharArray(chars: seq<char8>, copyBack: bool)   // FP_ARRAY, Type_Char
    | ByRef(value: cell)                             // FP_CELL_BYREF, FP_FLOAT_BYREF

  /** The number of cells that are allotted for a parameter. */
  function Size(p: Param): nat {
    match p
    case Cell(_) => 0
    case Text(text) => |text| + 1
    case TextEx(_) => STRINGEX_MAXLENGTH
    case CellArray(cells, _) => |cells|
    case CharArray(chars, _) => |chars|
    case ByRef(_) => 1
  }

  function AsCells(text: seq<char8>): (r: seq<cell>)
    ensures |r| == |text| && forall i :: 0 <= i < |text| ==> r[i] == text[i]
  {
    seq<cell>(|text|, i requires 0 <= i < |text| => text[i])
  }

  /** What the callee finds in the block. */
  function Content(p: Param): seq<cell> {
    match p
    case Cell(_) => []
    case Text(text) => AsCells(text) + [0]
    case TextEx(text) => AsCells(text) + [0]
    case CellArray(cells, _) => cells
    case CharArray(chars, _) => AsCells(chars)
    case ByRef(value) => [value]
  }

  /** The caller's part: an FP_STRINGEX text leaves room for its terminator. */
  predicate RoomFor(p: Param) {
    |Content(p)| <= Size(p)
  }

  /** Where the block of parameter `i` is, if `hea` is the heap before the call. */
  function BlockOf(params: seq<Param>, i: nat, hea: int): int
    requires i <= |params|
  {
    if i == 0 then hea else BlockOf(params, i - 1, hea) + CELL * Size(params[i-1])
  }

  /** The cell that is pushed for parameter `i`. */
  function Pushed(params: seq<Param>, i: nat, hea: int): int
    requires i < |params|
  {
    if params[i].Cell? then params[i].value else BlockOf(params, i, hea)
  }

  function CellsAt(mem: Memory, a: int, n: nat): (r: seq<cell>)
    ensures |r| == n
  {
    seq<cell>(n, k requires 0 <= k < n => if a + CELL * k in mem then mem[a + CELL * k] else 0)
  }

  function CharsAt(mem: Memory, a: int, n: nat): (r: seq<char8>)
    ensures |r| == n
  {
    seq<char8>(n, k requires 0 <= k < n => if a + CELL * k in mem then mem[a + CELL * k] as int % 0x100 else 0)
  }

  /** The parameter after the call, given the callee's memory and the reader of strings. */
  function CopiedBack(p: Param, mem: Memory, a: int, getString: (Memory, int) -> seq<char8>): Param {
    match p
    case TextEx(_) => TextEx(getString(mem, a))
    case CellArray(cells, true) => CellArray(CellsAt(mem, a, |cells|), true)
    case CharArray(chars, true) => CharArray(CharsAt(mem, a, |chars|), true)
    case ByRef(_) => ByRef(CellsAt(mem, a, 1)[0])
    case _ => p
  }

  ghost predicate InBlocks(params: seq<Param>, n: nat, hea: int, mem: Memory)
    requires n <= |params|
  {
    forall i :: 0 <= i < n ==> CellsIn(mem, BlockOf(params, i, hea), Content(params[i]))
  }

  /** What the callee is given: every parameter in its block, and the cells to push on the
      stack, first parameter on top. */
  ghost predicate Delivered(params: seq<Param>, hea: int, mem: Memory, stk: int) {
    && InBlocks(params, |params|, hea, mem)
    && exists cells :: |cells| == |params| && CellsIn(mem, stk, cells)
                       && forall i :: 0 <= i < |params| ==> cells[i] == Pushed(params, i, hea)
  }

  lemma {:induction false} BlocksAscend(params: seq<Param>, i: nat, j: nat, hea: int)
    requires i <= j <= |params|
    ensures BlockOf(params, i, hea) <= BlockOf(params, j, hea)
    ensures i < j ==> BlockOf(params, i, hea) + CELL * Size(params[i]) <= BlockOf(params, j, hea)
  {
    if i < j { BlocksAscend(params, i, j - 1, hea); }
  }

  // ----- the steps of `execute`, on machines -----

  /** Cells written one after the other. */
  function Filled(m: Machine, a: int, cells: seq<cell>): Machine {
    if cells == [] then m
    else Stored(Filled(m, a, cells[..|cells|-1]), a + CELL * (|cells| - 1), cells[|cells|-1])
  }

  lemma {:induction false} FilledHolds(m: Machine, a: int, cells: seq<cell>)
    ensures var f := Filled(m, a, cells);
      && f == m.(mem := f.mem, faulted := f.faulted) && f.mem.Keys == m.mem.Keys && (m.faulted ==> f.faulted)
      && (!f.faulted ==> CellsIn(f.mem, a, cells))
      && (forall x :: x in m.mem && !(a <= x < a + CELL * |cells|) ==> f.mem[x] == m.mem[x])
  {
    if cells != [] {
      var n := |cells| - 1;
      FilledHolds(m, a, cells[..n]);
      var f := Filled(m, a, cells);
      var g := Filled(m, a, cells[..n]);
      forall k | 0 <= k < n && !f.faulted ensures a + CELL * k in f.mem && f.mem[a + CELL * k] == cells[k] {
        assert cells[..n][k] == cells[k];
      }
    }
  }

  /** The block of a parameter fits between heap and stack. */
  predicate Fits(p: Param, hea: int, stk: int) {
    p.Cell? || hea + CELL * Size(p) + STKMARGIN <= stk
  }

  predicate BlocksFit(params: seq<Param>, n: nat, hea: int, stk: int)
    requires n <= |params|
  {
    forall i :: 0 <= i < n ==> Fits(params[i], BlockOf(params, i, hea), stk)
  }

  lemma BlocksFitNext(params: seq<Param>, n: nat, hea: int, stk: int)
    requires n < |params|
    ensures BlocksFit(params, n + 1, hea, stk) <==>
      BlocksFit(params, n, hea, stk) && Fits(params[n], BlockOf(params, n, hea), stk)
    ensures BlockOf(params, n + 1, hea) == BlockOf(params, n, hea) + CELL * Size(params[n])
  {
    hide Size, Fits;
  }

  lemma WrapCell(x: int)
    requires -0x8000_0000 <= x < 0x8000_0000
    ensures Wrap(x) == x
  {
  }

  /** Allots and fills the block of one parameter. */
  function Prepared(m: Machine, p: Param): Machine {
    if p.Cell? then m else Filled(m.(hea := Wrap(m.hea + CELL * Size(p))), m.hea, Content(p))
  }

  /** The blocks of the first `n` parameters. */
  function PreparedFirst(m: Machine, params: seq<Param>, n: nat): Machine
    requires n <= |params|
  {
    if n == 0 then m else Prepared(PreparedFirst(m, params, n - 1), params[n-1])
  }

  function PushedCells(params: seq<Param>, hea: int): (cells: seq<cell>)
    ensures |cells| == |params|
  {
    seq<cell>(|params|, i requires 0 <= i < |params| => Wrap(Pushed(params, i, hea)))
  }

  /** The machine when the function is called. */
  function EntryOf(m: Machine, params: seq<Param>): Machine {
    AfterPushes(PreparedFirst(m, params, |params|), PushedCells(params, m.hea))
  }

  predicate AllCells(params: seq<Param>, n: nat)
    requires n <= |params|
  {
    forall i :: 0 <= i < n ==> params[i].Cell?
  }

  /** All blocks released, first one first: that drops the heap below all of them. */
  function ReleasedAll(m: Machine, params: seq<Param>, hea: cell): Machine {
    if AllCells(params, |params|) then m else Released(m, hea)
  }

  function CopiedBackAll(params: seq<Param>, mem: Memory, hea: int, getString: (Memory, int) -> seq<char8>): (r: seq<Param>)
    ensures |r| == |params|
  {
    seq<Param>(|params|, i requires 0 <= i < |params| => CopiedBack(params[i], mem, BlockOf(params, i, hea), getString))
  }

  /** What one plugin gives back.  `NotCalled`: an allotment failed, or was granted without room;
      the source goes on with an undefined address then. */
  datatype OneResult = NotCalled | Ran(m: Machine, params: seq<Param>, status: Status, retVal: cell)

  /** CSPForward::execute, and the body of the loop of CForward::execute. */
  function One(cfg: Config, m: Machine, params: seq<Param>, func: int, getString: (Memory, int) -> seq<char8>, fuel: nat): OneResult {
    if !BlocksFit(params, |params|, m.hea, m.stk) then NotCalled
    else
      var o := Executed(cfg, EntryOf(m, params), func, fuel);
      Ran(ReleasedAll(o.m, params, m.hea).(error := ERR_NONE), CopiedBackAll(params, o.m.mem, m.hea, getString), o.status, o.retval)
  }

  // ----- what the callee is given -----

  lemma {:induction false} PreparedKeeps(m: Machine, params: seq<Param>, n: nat)
    requires n <= |params| && BlocksFit(params, n, m.hea, m.stk)
    ensures var p := PreparedFirst(m, params, n);
      && p == m.(hea := p.hea, mem := p.mem, faulted := p.faulted) && p.hea == BlockOf(params, n, m.hea)
      && p.mem.Keys == m.mem.Keys && (m.faulted ==> p.faulted) && m.hea <= p.hea
  {
    hide Filled, Content, BlockOf, BlocksFit, Size, Wrap;
    BlockZero(params, m.hea);
    if n > 0 {
      var p := params[n-1];
      BlocksFitNext(params, n - 1, m.hea, m.stk);
      PreparedKeeps(m, params, n - 1);
      var q := PreparedFirst(m, params, n - 1);
      BlocksAscend(params, 0, n - 1, m.hea);
      BlockEmpty(p);
      if !p.Cell? {
        WrapCell(q.hea + CELL * Size(p));
        FilledHolds(q.(hea := Wrap(q.hea + CELL * Size(p))), q.hea, Content(p));
      }
    }
  }

  lemma {:induction false} PreparedBlocks(m: Machine, params: seq<Param>, n: nat)
    requires n <= |params| && BlocksFit(params, n, m.hea, m.stk) && forall p <- params :: RoomFor(p)
    ensures var p := PreparedFirst(m, params, n); !p.faulted ==> InBlocks(params, n, m.hea, p.mem)
  {
    hide Filled, Content, Size, CellsIn, BlockOf, BlocksFit, InBlocks, RoomFor, Wrap;
    NothingInBlocks(params, m.hea, m.mem);
    if n > 0 {
      var p := params[n-1];
      BlocksFitNext(params, n - 1, m.hea, m.stk);
      PreparedBlocks(m, params, n - 1);
      PreparedKeeps(m, params, n - 1);
      PreparedKeeps(m, params, n);
      var q, next := PreparedFirst(m, params, n - 1), PreparedFirst(m, params, n);
      FilledHolds(q.(hea := Wrap(q.hea + CELL * Size(p))), q.hea, Content(p));
      BlockEmpty(p);
      NothingIn(next.mem, BlockOf(params, n - 1, m.hea));
      if !next.faulted {
        OneMoreBlock(params, n - 1, m.hea, q.mem, next.mem);
      }
    }
  }

  lemma NothingInBlocks(params: seq<Param>, hea: int, mem: Memory)
    ensures InBlocks(params, 0, hea, mem)
  {
  }

  lemma BlockEmpty(p: Param)
    ensures p.Cell? ==> Content(p) == [] && Size(p) == 0
  {
  }

  lemma OneMoreBlock(params: seq<Param>, i: nat, hea: int, before: Memory, after: Memory)
    requires i < |params| && forall p <- params :: RoomFor(p)
    requires InBlocks(params, i, hea, before) && CellsIn(after, BlockOf(params, i, hea), Content(params[i]))
    requires after.Keys == before.Keys && forall x :: x in before && x < BlockOf(params, i, hea) ==> after[x] == before[x]
    ensures InBlocks(params, i + 1, hea, after)
  {
    hide BlockOf, Content, Size, CellsIn;
    forall j | 0 <= j < i
      ensures CellsIn(after, BlockOf(params, j, hea), Content(params[j]))
    {
      BlocksAscend(params, j, i, hea);
      assert RoomFor(params[j]);
      StillHolds(before, after, BlockOf(params, j, hea), Content(params[j]), BlockOf(params, i, hea));
    }
  }

  lemma StillHolds(before: Memory, after: Memory, a: int, cells: seq<cell>, limit: int)
    requires CellsIn(before, a, cells) && a + CELL * |cells| <= limit && after.Keys == before.Keys
    requires forall x :: x in before && x < limit ==> after[x] == before[x]
    ensures CellsIn(after, a, cells)
  {
  }

  lemma {:induction false} CellsTakeNoBlock(params: seq<Param>, n: nat, hea: int)
    requires n <= |params| && AllCells(params, n)
    ensures BlockOf(params, n, hea) == hea
  {
    if n > 0 { CellsTakeNoBlock(params, n - 1, hea); }
  }

  /** When the blocks fit: there are none, or all of them together leave the margin free. */
  lemma BlocksFitExactly(params: seq<Param>, hea: int, stk: int)
    ensures BlocksFit(params, |params|, hea, stk) <==>
      AllCells(params, |params|) || BlockOf(params, |params|, hea) + STKMARGIN <= stk
  {
    if BlockOf(params, |params|, hea) + STKMARGIN <= stk {
      forall i | 0 <= i < |params| ensures Fits(params[i], BlockOf(params, i, hea), stk) {
        BlocksAscend(params, i, |params|, hea);
      }
    } else if !AllCells(params, |params|) {
      LastBlock(params, |params|, hea, stk);
    }
  }

  lemma {:induction false} LastBlock(params: seq<Param>, n: nat, hea: int, stk: int)
    requires n <= |params| && !AllCells(params, n) && BlockOf(params, n, hea) + STKMARGIN > stk
    ensures !BlocksFit(params, n, hea, stk)
  {
    if params[n-1].Cell? {
      LastBlock(params, n - 1, hea, stk);
    } else {
      assert !Fits(params[n-1], BlockOf(params, n - 1, hea), stk);
    }
  }

  /** There is room for the blocks and for all pushes behind them. */
  predicate PushesFit(params: seq<Param>, hea: int, stk: int) {
    params == [] || BlockOf(params, |params|, hea) + STKMARGIN + CELL * (|params| - 1) <= stk
  }

  /** Where stack and heap are when the function is called.  Without room for the pushes the
      margin is used up. */
  lemma EntryRegisters(m: Machine, params: seq<Param>)
    requires BlocksFit(params, |params|, m.hea, m.stk)
    ensures var e := EntryOf(m, params);
      && e.hea == BlockOf(params, |params|, m.hea) >= m.hea && Base(e) == Base(m)
      && (e.stk == m.stk || e.stk >= e.hea + STKMARGIN - CELL)
      && if PushesFit(params, m.hea, m.stk) then e.stk == m.stk - CELL * |params| && e.paramcount == m.paramcount + |params|
         else e.hea + STKMARGIN > e.stk
  {
    hide AfterPushes, PreparedFirst, BlockOf, BlocksFit, PushedCells;
    var p, cells := PreparedFirst(m, params, |params|), PushedCells(params, m.hea);
    PreparedKeeps(m, params, |params|);
    PushesConserve(p, cells);
    RoomForAll(p, cells);
  }

  /** The callee starts with every string, array and by-ref cell in a block of its own and the
      parameters on its stack. */
  lemma EntryDelivers(m: Machine, params: seq<Param>)
    requires BlocksFit(params, |params|, m.hea, m.stk) && PushesFit(params, m.hea, m.stk)
    requires forall p <- params :: RoomFor(p)
    ensures var e := EntryOf(m, params);
      && e.stk == m.stk - CELL * |params| && e.paramcount == m.paramcount + |params|
      && (!e.faulted ==> Delivered(params, m.hea, e.mem, e.stk))
  {
    hide AfterPushes, PreparedFirst, CellsIn, Delivered, InBlocks, BlockOf, BlocksFit, PushedCells, RoomFor;
    var p, cells, e := PreparedFirst(m, params, |params|), PushedCells(params, m.hea), EntryOf(m, params);
    EntryRegisters(m, params);
    PreparedKeeps(m, params, |params|);
    PreparedBlocks(m, params, |params|);
    PushesConserve(p, cells);
    NoParams(params, m.hea);
    ArgumentsPushed(p, cells);
    PushedBlocks(m, params);
    if !e.faulted {
      ParamsDelivered(params, m.hea, p.mem, e.mem, e.stk, cells);
    }
  }

  lemma NoParams(params: seq<Param>, hea: int)
    ensures params == [] ==> BlockOf(params, |params|, hea) == hea
  {
  }

  lemma ParamsDelivered(params: seq<Param>, hea: int, prepared: Memory, entry: Memory, stk: int, cells: seq<cell>)
    requires forall p <- params :: RoomFor(p)
    requires InBlocks(params, |params|, hea, prepared) && CellsIn(entry, stk, cells) && |cells| == |params|
    requires forall i :: 0 <= i < |params| ==> cells[i] == Pushed(params, i, hea)
    requires entry.Keys == prepared.Keys
    requires forall x :: x in prepared && x < BlockOf(params, |params|, hea) ==> entry[x] == prepared[x]
    ensures Delivered(params, hea, entry, stk)
  {
    hide CellsIn, Content, BlockOf, Pushed, Size;
    forall i | 0 <= i < |params|
      ensures CellsIn(entry, BlockOf(params, i, hea), Content(params[i]))
    {
      BlocksAscend(params, i, |params|, hea);
      assert RoomFor(params[i]);
      StillHolds(prepared, entry, BlockOf(params, i, hea), Content(params[i]), BlockOf(params, |params|, hea));
    }
  }

  // ----- what is conserved -----

  /** Whatever the callee and the natives below it do, a call that ends leaves the stack above the
      parameters that were waiting, and the heap where it was.  Without room for the pushes no
      instruction is executed. */
  lemma OneConserves(cfg: Config, m: Machine, params: seq<Param>, func: int, getString: (Memory, int) -> seq<char8>, fuel: nat)
    requires BlocksFit(params, |params|, m.hea, m.stk) && 0 <= m.stk
    ensures var r := One(cfg, m, params, func, getString, fuel);
      && r.Ran?
      && (r.status.Ended? ==> r.m.stk == Base(m) && r.m.hea == m.hea)
      && (!PushesFit(params, m.hea, m.stk) ==> r.status.Refused? || r.status == Bailed(ERR_STACKERR))
  {
    hide EntryOf, Executed, BlockOf, BlocksFit, CopiedBackAll, Base;
    var e := EntryOf(m, params);
    EntryRegisters(m, params);
    CallConserves(cfg, e, func, fuel);
    if AllCells(params, |params|) { CellsTakeNoBlock(params, |params|, m.hea); }
    if !PushesFit(params, m.hea, m.stk) { NoRoom(cfg, e, func, fuel); }
  }

  /** No parameters are left behind if none were waiting and no call inside is turned away. */
  lemma OneCounts(cfg: Config, m: Machine, params: seq<Param>, func: int, getString: (Memory, int) -> seq<char8>, fuel: nat)
    requires BlocksFit(params, |params|, m.hea, m.stk) && Counted(m)
    ensures var r := One(cfg, m, params, func, getString, fuel);
      && Counted(r.m) && m.history <= r.m.history
      && (NoneTurned(r.m.history, |m.history|) ==> r.m.paramcount == 0)
      && (CleanFrom(r.m.history, |m.history|) ==> r.status.Ended?)
  {
    hide AfterPushes, PreparedFirst, Executed, Leftover, BlockOf, BlocksFit, CopiedBackAll, PushedCells;
    var p, cells, e := PreparedFirst(m, params, |params|), PushedCells(params, m.hea), EntryOf(m, params);
    PreparedKeeps(m, params, |params|);
    PushesCounted(p, cells);
    ExecutedRecorded(cfg, e, func, fuel);
    PushesConserve(p, cells);
    RecordedPushes(p, e, Executed(cfg, e, func, fuel).m);
  }

  // ----- what comes back -----

  /** What the callee finds at address `a` for a parameter. */
  predicate Given(p: Param, mem: Memory, a: int) {
    match p
    case Cell(_) => true
    case Text(text) => Terminated(text, mem, a)
    case TextEx(text) => Terminated(text, mem, a)
    case CellArray(cells, _) => forall k :: 0 <= k < |cells| ==> a + 4 * k in mem && mem[a + 4 * k] == cells[k]
    case CharArray(chars, _) => forall k :: 0 <= k < |chars| ==> a + 4 * k in mem && mem[a + 4 * k] == chars[k]
    case ByRef(value) => a in mem && mem[a] == value
  }

  predicate Terminated(text: seq<char8>, mem: Memory, a: int) {
    && (forall k :: 0 <= k < |text| ==> a + 4 * k in mem && mem[a + 4 * k] == text[k])
    && a + 4 * |text| in mem && mem[a + 4 * |text|] == 0
  }

  /** The cells of heap that the block of a parameter takes. */
  lemma BlockSizes(p: Param)
    ensures Size(p) == if p.Cell? then 0 else if p.Text? then |p.text| + 1 else if p.TextEx? then 128
                       else if p.CellArray? then |p.cells| else if p.CharArray? then |p.chars| else 1
  {
  }

  /** The callee finds every parameter by kind: values on the stack, in order, and for the others
      the address of a block with the text and its terminator, the elements or the cell. */
  lemma EntryGives(m: Machine, params: seq<Param>, i: nat)
    requires BlocksFit(params, |params|, m.hea, m.stk) && PushesFit(params, m.hea, m.stk)
    requires (forall p <- params :: RoomFor(p)) && i < |params|
    ensures var e, a := EntryOf(m, params), BlockOf(params, i, m.hea);
      !e.faulted ==>
        && Given(params[i], e.mem, a)
        && e.stk + 4 * i in e.mem && e.mem[e.stk + 4 * i] == if params[i].Cell? then params[i].value else a
  {
    hide EntryOf, BlockOf, BlocksFit, PushesFit, RoomFor, Content;
    EntryDelivers(m, params);
    var e, a := EntryOf(m, params), BlockOf(params, i, m.hea);
    if !e.faulted {
      assert CellsIn(e.mem, a, Content(params[i]));
      GivenByContent(params[i], e.mem, a);
    }
  }

  lemma GivenByContent(p: Param, mem: Memory, a: int)
    requires CellsIn(mem, a, Content(p))
    ensures Given(p, mem, a)
  {
    var cells := Content(p);
    assert forall k :: 0 <= k < |cells| ==> a + CELL * k in mem && mem[a + CELL * k] == cells[k];
    if p.Text? { assert cells[|p.text|] == 0; }
    if p.TextEx? { assert cells[|p.text|] == 0; }
    if p.ByRef? { assert a + CELL * 0 in mem && cells[0] == p.value; }
  }

  /** The block of a parameter lies in the memory. */
  predicate BlockIn(p: Param, mem: Memory, a: int) {
    forall k :: 0 <= k < Size(p) ==> a + CELL * k in mem
  }

  /** A parameter before and after a call, given the callee's memory at the end. */
  ghost predicate BroughtBack(p: Param, q: Param, mem: Memory, a: int, getString: (Memory, int) -> seq<char8>) {
    match p
    case TextEx(_) => q == TextEx(getString(mem, a))
    case ByRef(_) => q.ByRef? && a in mem && q.value == mem[a]
    case CellArray(cells, true) =>
      && q.CellArray? && q.copyBack && |q.cells| == |cells|
      && forall k :: 0 <= k < |cells| ==> a + 4 * k in mem && q.cells[k] == mem[a + 4 * k]
    case CharArray(chars, true) =>
      && q.CharArray? && q.copyBack && |q.chars| == |chars|
      && forall k :: 0 <= k < |chars| ==> a + 4 * k in mem && q.chars[k] == Unsigned(mem[a + 4 * k]) % 256
    case _ => q == p
  }

  lemma BroughtByCopy(p: Param, mem: Memory, a: int, getString: (Memory, int) -> seq<char8>)
    requires BlockIn(p, mem, a)
    ensures BroughtBack(p, CopiedBack(p, mem, a, getString), mem, a, getString)
  {
    if p.ByRef? { assert a + CELL * 0 in mem; }
    if p.CharArray? && p.copyBack {
      forall k | 0 <= k < |p.chars| ensures CharsAt(mem, a, |p.chars|)[k] == Unsigned(mem[a + 4 * k]) % 256 {
        assert a + CELL * k in mem;
        LowByte(mem[a + 4 * k]);
      }
    }
  }

  lemma LowByte(c: cell)
    ensures Unsigned(c) % 256 == c as int % 256
  {
    assert c as int == c as int / 0x1_0000_0000 * 0x1_0000_0000 + Unsigned(c);
  }

  /** What one plugin gives back: every by-ref cell, array to copy back and string buffer as the
      callee leaves it in its block, all other parameters as they were, and as value the primary
      register at the callee's HALT. */
  lemma OneBrings(cfg: Config, m: Machine, params: seq<Param>, func: int, getString: (Memory, int) -> seq<char8>, fuel: nat)
    requires BlocksFit(params, |params|, m.hea, m.stk)
    ensures var r := One(cfg, m, params, func, getString, fuel);
      && r.Ran? && |r.params| == |params|
      && (forall i :: 0 <= i < |params| && BlockIn(params[i], r.m.mem, BlockOf(params, i, m.hea)) ==>
            BroughtBack(params[i], r.params[i], r.m.mem, BlockOf(params, i, m.hea), getString))
      && r.retVal == ReturnedBy(HaltState(cfg, EntryOf(m, params), func, fuel))
  {
    hide EntryOf, Executed, BlockOf, BlocksFit, HaltState, BlockIn, BroughtBack, CopiedBack;
    var e, r := EntryOf(m, params), One(cfg, m, params, func, getString, fuel);
    ExecutedReturns(cfg, e, func, fuel);
    forall i | 0 <= i < |params| && BlockIn(params[i], r.m.mem, BlockOf(params, i, m.hea))
      ensures BroughtBack(params[i], r.params[i], r.m.mem, BlockOf(params, i, m.hea), getString)
    {
      BroughtByCopy(params[i], r.m.mem, BlockOf(params, i, m.hea), getString);
    }
  }

  function ReturnedBy(halt: Option<State>): cell { if halt.Some? then halt.value.pri else 0 }

  // ----- the steps of `execute`, on the AMX structure -----

  method WriteBlock(amx: Amx, a: int, cells: seq<cell>)
    modifies amx`mem, amx`faulted
    ensures amx.Current() == Filled(old(amx.Current()), a, cells)
  {
    var k := 0;
    while k < |cells|
      invariant 0 <= k <= |cells|
      invariant amx.Current() == Filled(old(amx.Current()), a, cells[..k])
    {
      assert cells[..k+1][..k] == cells[..k];
      amx.StoreCell(a + CELL * k, cells[k]);
      k := k + 1;
    }
    assert cells[..k] == cells;
  }

  /** `ok` tells that the block fits between heap and stack; amx_Allot grants it then. */
  method MakeBlock(amx: Amx, cells: nat) returns (ok: bool, addr: cell)
    modifies amx`hea
    ensures ok == (old(amx.hea) + CELL * cells + STKMARGIN <= amx.stk) && addr == old(amx.hea)
    ensures ok ==> amx.Current() == old(amx.Current()).(hea := Wrap(old(amx.hea) + CELL * cells))
  {
    addr := amx.hea;
    ok := amx.stk - amx.hea - CELL * cells >= STKMARGIN;
    var err, _ := amx.AllotCells(cells);
    assert ok ==> err == ERR_NONE;
  }

  /** The first loop of `execute`: fills `realParams`. */
  method PrepareAll(amx: Amx, params: seq<Param>, realParams: array<cell>) returns (ok: bool)
    requires |params| <= realParams.Length
    modifies amx`hea, amx`mem, amx`faulted, realParams
    ensures ok <==> BlocksFit(params, |params|, old(amx.hea), old(amx.stk))
    ensures ok ==> amx.Current() == PreparedFirst(old(amx.Current()), params, |params|)
    ensures ok ==> realParams[..|params|] == PushedCells(params, old(amx.hea))
  {
    hide Filled, Content, Size, BlockOf, BlocksFit, PushedCells, Pushed, Fits;
    ghost var m := amx.Current();
    var i := 0;
    NoBlocks(params, m.hea, m.stk);
    while i < |params|
      invariant 0 <= i <= |params|
      invariant BlocksFit(params, i, m.hea, m.stk) && amx.Current() == PreparedFirst(m, params, i)
      invariant forall j :: 0 <= j < i ==> realParams[j] == PushedCells(params, m.hea)[j]
    {
      PreparedKeeps(m, params, i);
      BlocksFitNext(params, i, m.hea, m.stk);
      BlockMade(params, i, m.hea, m.stk);
      if params[i].Cell? {
        realParams[i] := params[i].value;
      } else {
        ok, realParams[i] := MakeBlock(amx, Size(params[i]));
        if !ok {
          SomeMisfit(params, i, m.hea, m.stk);
          return;
        }
        WriteBlock(amx, realParams[i], Content(params[i]));
      }
      i := i + 1;
    }
    ok := true;
    assert realParams[..|params|] == PushedCells(params, m.hea);
  }

  lemma NoBlocks(params: seq<Param>, hea: int, stk: int)
    ensures BlocksFit(params, 0, hea, stk)
  {
  }

  lemma BlockMade(params: seq<Param>, i: nat, hea: cell, stk: cell)
    requires i < |params| && hea <= BlockOf(params, i, hea) <= 0x7fff_ffff
    ensures PushedCells(params, hea)[i] == if params[i].Cell? then params[i].value else BlockOf(params, i, hea)
    ensures Fits(params[i], BlockOf(params, i, hea), stk) <==>
      params[i].Cell? || BlockOf(params, i, hea) + CELL * Size(params[i]) + STKMARGIN <= stk
  {
    hide BlockOf, Size;
  }

  lemma SomeMisfit(params: seq<Param>, i: nat, hea: int, stk: int)
    requires i < |params| && !Fits(params[i], BlockOf(params, i, hea), stk)
    ensures !BlocksFit(params, |params|, hea, stk)
  {
    hide BlockOf, Fits;
  }

  /** The second loop: pushes the parameters in reverse order. */
  method PushAll(amx: Amx, n: nat, realParams: array<cell>)
    requires n <= realParams.Length
    modifies amx`stk, amx`paramcount, amx`mem, amx`faulted, amx`history
    ensures amx.Current() == AfterPushes(old(amx.Current()), realParams[..n])
  {
    var i := n;
    assert realParams[n..n] == [];
    while i > 0
      invariant 0 <= i <= n
      invariant amx.Current() == AfterPushes(old(amx.Current()), realParams[i..n])
    {
      i := i - 1;
      var _ := amx.Push(realParams[i]);
      assert realParams[i..n] == [realParams[i]] + realParams[i+1..n];
    }
    assert realParams[0..n] == realParams[..n];
  }

  /** The last loop: copies the blocks back and releases them, first parameter first.  The
      first release already drops the heap below the later blocks; their cells stay. */
  method CopyBackAll(amx: Amx, args: array<Param>, realParams: array<cell>, getString: (Memory, int) -> seq<char8>, ghost hea: cell)
    requires args.Length <= realParams.Length
    requires forall i :: 0 <= i < args.Length ==> realParams[i] == Pushed(args[..], i, hea)
    modifies amx`hea, args
    ensures args[..] == CopiedBackAll(old(args[..]), amx.mem, hea, getString)
    ensures amx.Current() == ReleasedAll(old(amx.Current()), old(args[..]), hea)
  {
    hide AllCells, BlockOf, CopiedBack, CopiedBackAll, Pushed;
    ghost var params, m := args[..], amx.Current();
    NothingReleased(params);
    var i := 0;
    while i < args.Length
      invariant 0 <= i <= args.Length
      invariant forall j :: 0 <= j < i ==> args[j] == CopiedBack(params[j], m.mem, BlockOf(params, j, hea), getString)
      invariant forall j :: i <= j < args.Length ==> args[j] == params[j]
      invariant amx.Current() == m.(hea := if AllCells(params, i) || m.hea <= hea then m.hea else hea)
    {
      assert args[i] == params[i];
      var inBlock := !args[i].Cell?;
      OneRelease(params, i, hea);
      CopyOfBlock(params, i, amx.mem, hea, realParams[i], getString);
      args[i] := CopiedBack(args[i], amx.mem, realParams[i], getString);
      if inBlock {
        amx.ReleaseTo(realParams[i]);
      }
      i := i + 1;
    }
    AllCopied(params, args[..], m.mem, hea, getString);
  }

  lemma CopyOfBlock(params: seq<Param>, i: nat, mem: Memory, hea: int, param: cell, getString: (Memory, int) -> seq<char8>)
    requires i < |params| && param == Pushed(params, i, hea)
    ensures CopiedBack(params[i], mem, param, getString) == CopiedBack(params[i], mem, BlockOf(params, i, hea), getString)
    ensures !params[i].Cell? ==> param == BlockOf(params, i, hea)
  {
    hide BlockOf;
  }

  lemma AllCopied(params: seq<Param>, args: seq<Param>, mem: Memory, hea: int, getString: (Memory, int) -> seq<char8>)
    requires |args| == |params|
    requires forall i :: 0 <= i < |params| ==> args[i] == CopiedBack(params[i], mem, BlockOf(params, i, hea), getString)
    ensures args == CopiedBackAll(params, mem, hea, getString)
  {
    hide BlockOf, CopiedBack;
  }

  lemma NothingReleased(params: seq<Param>)
    ensures AllCells(params, 0)
  {
  }

  /** The first block starts at the old heap. */
  lemma OneRelease(params: seq<Param>, i: nat, hea: int)
    requires i < |params|
    ensures params[i].Cell? ==> AllCells(params, i + 1) == AllCells(params, i)
    ensures !params[i].Cell? ==>
      !AllCells(params, i + 1) && hea <= BlockOf(params, i, hea)
      && (AllCells(params, i) ==> BlockOf(params, i, hea) == hea)
  {
    if AllCells(params, i) { CellsTakeNoBlock(params, i, hea); }
    BlocksAscend(params, 0, i, hea);
    BlockZero(params, hea);
  }

  lemma BlockZero(params: seq<Param>, hea: int)
    ensures BlockOf(params, 0, hea) == hea
  {
  }

  /** CSPForward::execute, and the body of the loop of CForward::execute: one plugin.  It is
      called exactly if the blocks fit. */
  method ExecuteOne(amx: Amx, func: int, args: array<Param>, getString: (Memory, int) -> seq<char8>, fuel: nat)
    returns (called: bool, status: Status, retVal: cell)
    requires func != EXEC_CONT && args.Length <= FORWARD_MAX_PARAMS
    modifies amx, args
    ensures called <==> BlocksFit(old(args[..]), args.Length, old(amx.hea), old(amx.stk))
    ensures called ==>
      Ran(amx.Current(), args[..], status, retVal) == One(amx.cfg, old(amx.Current()), old(args[..]), func, getString, fuel)
    ensures !called ==> args[..] == old(args[..])
  {
    hide PreparedFirst, AfterPushes, Executed, CopiedBack, BlocksFit, ReleasedAll;
    ghost var params, m := args[..], amx.Current();
    status, retVal := Refused(ERR_MEMORY), 0;
    var realParams := new cell[args.Length];
    called := PrepareAll(amx, args[..], realParams);
    if !called { return; }
    assert realParams[..args.Length] == PushedCells(params, m.hea);
    PushedBlocks(m, params);
    PushAll(amx, args.Length, realParams);
    status, retVal := amx.Exec(func, fuel);
    ghost var last := amx.Current();
    amx.error := ERR_NONE;
    CopyBackAll(amx, args, realParams, getString, m.hea);
    ReleasedError(last, params, m.hea);
  }

  lemma ReleasedError(m: Machine, params: seq<Param>, hea: cell)
    ensures ReleasedAll(m.(error := ERR_NONE), params, hea) == ReleasedAll(m, params, hea).(error := ERR_NONE)
  {
  }

  /** Addresses of blocks that fit are cells. */
  lemma PushedBlocks(m: Machine, params: seq<Param>)
    requires BlocksFit(params, |params|, m.hea, m.stk)
    ensures forall i :: 0 <= i < |params| ==> PushedCells(params, m.hea)[i] == Pushed(params, i, m.hea)
  {
    hide BlockOf, Size;
    forall i | 0 <= i < |params| ensures PushedCells(params, m.hea)[i] == Pushed(params, i, m.hea) {
      assert Fits(params[i], BlockOf(params, i, m.hea), m.stk);
      BlocksAscend(params, 0, i, m.hea);
      BlockZero(params, m.hea);
      WrapCell(Pushed(params, i, m.hea));
    }
  }

  // ----- all plugins of a forward -----

  datatype ExecType = Ignore | Stop | Stop2 | Continue

  /** One return value: the value to leave with, or the new overall value. */
  function Weigh(et: ExecType, retVal: cell, soFar: cell): (r: (bool, cell)) {
    if et == Ignore then (false, soFar)
    else if et == Stop && retVal > 0 then (true, retVal)
    else if et != Continue && retVal == 1 then (true, 1)
    else (false, if retVal > soFar then retVal else soFar)
  }

  /** The result of the plugins that were called, and whether the last one ended the loop. */
  function Combined(et: ExecType, rets: seq<cell>, soFar: cell): (r: (bool, cell))
    decreases |rets|
  {
    if rets == [] then (false, soFar) else
      var (stop, value) := Weigh(et, rets[0], soFar);
      if stop then (true, value) else Combined(et, rets[1..], value)
  }

  lemma {:induction false} CombinedSnoc(et: ExecType, rets: seq<cell>, retVal: cell, soFar: cell)
    requires !Combined(et, rets, soFar).0
    ensures Combined(et, rets + [retVal], soFar) == Weigh(et, retVal, Combined(et, rets, soFar).1)
    decreases |rets|
  {
    if rets == [] {
      assert (rets + [retVal])[1..] == [];
    } else {
      CombinedSnoc(et, rets[1..], retVal, Weigh(et, rets[0], soFar).1);
      assert (rets + [retVal])[1..] == rets[1..] + [retVal];
    }
  }

  predicate IsMaximum(m: cell, rets: seq<cell>, soFar: cell) {
    (m == soFar || m in rets) && soFar <= m && forall r <- rets :: r <= m
  }

  predicate FirstHandled(i: int, rets: seq<cell>) {
    0 <= i < |rets| && rets[i] > 0 && forall j :: 0 <= j < i ==> rets[j] <= 0
  }

  /** What the documentation of the types says: ignore; stop on a handled value; stop on 1,
      else the biggest; always the biggest. */
  lemma {:induction false} CombinedMeaning(et: ExecType, rets: seq<cell>, soFar: cell)
    requires soFar >= 0
    ensures var (stop, value) := Combined(et, rets, soFar);
      match et
      case Ignore => !stop && value == soFar
      case Stop => if stop then exists i :: FirstHandled(i, rets) && value == rets[i]
                   else value == soFar && forall r <- rets :: r <= 0
      case Stop2 => if stop then value == 1 && 1 in rets else 1 !in rets && IsMaximum(value, rets, soFar)
      case Continue => !stop && IsMaximum(value, rets, soFar)
    decreases |rets|
  {
    if rets != [] {
      var (stop, value) := Weigh(et, rets[0], soFar);
      assert forall r :: r in rets <==> r == rets[0] || r in rets[1..];
      if stop {
        if et == Stop { assert FirstHandled(0, rets); }
      } else {
        CombinedMeaning(et, rets[1..], value);
        if et == Stop && Combined(et, rets, soFar).0 {
          var i :| FirstHandled(i, rets[1..]) && Combined(et, rets, soFar).1 == rets[1..][i];
          assert FirstHandled(i + 1, rets);
        }
      }
    }
  }

  /** A plugin of a forward, with the machine that it runs on. */
  datatype Plugin = Plugin(cfg: Config, m: Machine, func: int, executable: bool)

  /** One call: the plugin, the parameters that it was given and those that came back. */
  datatype PluginCall = PluginCall(plugin: nat, given: seq<Param>, back: seq<Param>, status: Status, retVal: cell)

  /** `ok` tells that every plugin that was to be called could be called. */
  datatype ForwardResult = ForwardResult(
    ok: bool, result: cell, machines: seq<Machine>, params: seq<Param>, calls: seq<PluginCall>)

  function Machines(ps: seq<Plugin>): (ms: seq<Machine>)
    ensures |ms| == |ps|
  {
    seq(|ps|, i requires 0 <= i < |ps| => ps[i].m)
  }

  /** CForward::execute from plugin `i` on. */
  function ForwardFrom(et: ExecType, ps: seq<Plugin>, i: nat, params: seq<Param>, soFar: cell,
                       getString: (Memory, int) -> seq<char8>, fuel: nat): (f: ForwardResult)
    requires i <= |ps|
    ensures |f.machines| == |ps| - i
    decreases |ps| - i
  {
    if i == |ps| then ForwardResult(true, soFar, [], params, [])
    else if !ps[i].executable then
      var f := ForwardFrom(et, ps, i + 1, params, soFar, getString, fuel);
      f.(machines := [ps[i].m] + f.machines)
    else
      match One(ps[i].cfg, ps[i].m, params, ps[i].func, getString, fuel)
      case NotCalled => ForwardResult(false, soFar, Machines(ps[i..]), params, [])
      case Ran(m, back, status, retVal) =>
        var (stop, value) := Weigh(et, retVal, soFar);
        var call := PluginCall(i, params, back, status, retVal);
        if stop then ForwardResult(true, value, [m] + Machines(ps[i+1..]), back, [call])
        else
          var f := ForwardFrom(et, ps, i + 1, back, value, getString, fuel);
          f.(machines := [m] + f.machines, calls := [call] + f.calls)
  }

  function Forward(et: ExecType, ps: seq<Plugin>, params: seq<Param>, getString: (Memory, int) -> seq<char8>, fuel: nat): ForwardResult {
    ForwardFrom(et, ps, 0, params, 0, getString, fuel)
  }

  // ----- which plugins run -----

  function Executables(ps: seq<Plugin>, i: nat): seq<nat>
    requires i <= |ps|
    decreases |ps| - i
  {
    if i == |ps| then [] else
      var here: seq<nat> := if ps[i].executable then [i] else [];
      here + Executables(ps, i + 1)
  }

  function CalledPlugins(calls: seq<PluginCall>): (r: seq<nat>)
    ensures |r| == |calls|
  {
    seq(|calls|, j requires 0 <= j < |calls| => calls[j].plugin)
  }

  function Rets(calls: seq<PluginCall>): (r: seq<cell>)
    ensures |r| == |calls|
  {
    seq(|calls|, j requires 0 <= j < |calls| => calls[j].retVal)
  }

  /** The plugins that run are the first executable ones.  Only the last return value can stop the
      loop; otherwise they all run, or the blocks of the next one do not fit.  The result combines
      exactly the return values of those that ran. */
  lemma {:induction false} WhichRun(et: ExecType, ps: seq<Plugin>, i: nat, params: seq<Param>, soFar: cell,
                                    getString: (Memory, int) -> seq<char8>, fuel: nat)
    requires i <= |ps|
    ensures var f, all := ForwardFrom(et, ps, i, params, soFar, getString, fuel), Executables(ps, i);
      && CalledPlugins(f.calls) <= all
      && f.result == Combined(et, Rets(f.calls), soFar).1
      && (forall j :: 0 <= j < |f.calls| ==> !Combined(et, Rets(f.calls)[..j], soFar).0)
      && (f.ok <==> Combined(et, Rets(f.calls), soFar).0 || |f.calls| == |all|)
      && (!f.ok ==> |f.calls| < |all| && all[|f.calls|] < |ps| && Misfits(ps[all[|f.calls|]], f.params))
    decreases |ps| - i
  {
    hide One, Weigh;
    var f, all := ForwardFrom(et, ps, i, params, soFar, getString, fuel), Executables(ps, i);
    if i == |ps| {
      NoneRan(et, soFar);
    } else if !ps[i].executable {
      WhichRun(et, ps, i + 1, params, soFar, getString, fuel);
    } else {
      match One(ps[i].cfg, ps[i].m, params, ps[i].func, getString, fuel) {
        case NotCalled =>
          NoneRan(et, soFar);
          WhenNotCalled(ps[i], params, getString, fuel);
          assert all[0] == i;
        case Ran(m, back, status, retVal) =>
          var (stop, value) := Weigh(et, retVal, soFar);
          var call := PluginCall(i, params, back, status, retVal);
          if stop {
            OneMoreRan(et, call, [], soFar);
            NoneRan(et, value);
          } else {
            WhichRun(et, ps, i + 1, back, value, getString, fuel);
            OneMoreRan(et, call, ForwardFrom(et, ps, i + 1, back, value, getString, fuel).calls, soFar);
          }
      }
    }
  }

  /** The blocks for this plugin do not fit. */
  predicate Misfits(p: Plugin, params: seq<Param>) {
    p.executable && !BlocksFit(params, |params|, p.m.hea, p.m.stk)
  }

  lemma WhenNotCalled(p: Plugin, params: seq<Param>, getString: (Memory, int) -> seq<char8>, fuel: nat)
    requires p.executable && One(p.cfg, p.m, params, p.func, getString, fuel) == NotCalled
    ensures Misfits(p, params)
  {
    hide BlocksFit;
  }

  lemma NoneRan(et: ExecType, soFar: cell)
    ensures CalledPlugins([]) == [] && Rets([]) == [] && Combined(et, [], soFar) == (false, soFar)
  {
  }

  lemma OneMoreRan(et: ExecType, call: PluginCall, more: seq<PluginCall>, soFar: cell)
    ensures CalledPlugins([call] + more) == [call.plugin] + CalledPlugins(more) && Rets([call] + more) == [call.retVal] + Rets(more)
    ensures var (stop, value) := Weigh(et, call.retVal, soFar);
      && Combined(et, Rets([call] + more), soFar) == (if stop then (true, value) else Combined(et, Rets(more), value))
      && (forall j :: 0 <= j <= |more| && !stop && (j > 0 ==> !Combined(et, Rets(more)[..j-1], value).0) ==>
            !Combined(et, Rets([call] + more)[..j], soFar).0)
      && !Combined(et, Rets([call] + more)[..0], soFar).0
  {
    hide Weigh;
    var rets := Rets(more);
    assert Rets([call] + more) == [call.retVal] + rets;
    assert ([call.retVal] + rets)[1..] == rets;
    forall j | 0 < j <= |more| ensures ([call.retVal] + rets)[..j] == [call.retVal] + rets[..j-1] {
    }
    forall j | 0 < j <= |more| && !Weigh(et, call.retVal, soFar).0
      ensures Combined(et, Rets([call] + more)[..j], soFar) == Combined(et, rets[..j-1], Weigh(et, call.retVal, soFar).1)
    {
      assert ([call.retVal] + rets)[..j][1..] == rets[..j-1];
    }
  }

  /** What a call has done: it is the call of that plugin alone, on the parameters that it was
      given.  Each call is given what the one before brought back. */
  ghost predicate Done(ps: seq<Plugin>, f: ForwardResult, i: nat, j: nat, params: seq<Param>,
                       getString: (Memory, int) -> seq<char8>, fuel: nat)
    requires i <= |ps| && |f.machines| == |ps| - i && j < |f.calls|
  {
    var c := f.calls[j];
    && i <= c.plugin < |ps| && c.given == (if j == 0 then params else f.calls[j-1].back)
    && One(ps[c.plugin].cfg, ps[c.plugin].m, c.given, ps[c.plugin].func, getString, fuel)
       == Ran(f.machines[c.plugin - i], c.back, c.status, c.retVal)
  }

  lemma {:induction false} EachCall(et: ExecType, ps: seq<Plugin>, i: nat, params: seq<Param>, soFar: cell,
                                    getString: (Memory, int) -> seq<char8>, fuel: nat)
    requires i <= |ps|
    ensures var f := ForwardFrom(et, ps, i, params, soFar, getString, fuel);
      && (forall j :: 0 <= j < |f.calls| ==> Done(ps, f, i, j, params, getString, fuel))
      && f.params == (if f.calls == [] then params else f.calls[|f.calls|-1].back)
    decreases |ps| - i
  {
    hide One, Weigh, Done;
    var f := ForwardFrom(et, ps, i, params, soFar, getString, fuel);
    if i < |ps| && !ps[i].executable {
      EachCall(et, ps, i + 1, params, soFar, getString, fuel);
      var g := ForwardFrom(et, ps, i + 1, params, soFar, getString, fuel);
      forall j | 0 <= j < |f.calls| ensures Done(ps, f, i, j, params, getString, fuel) {
        DoneLater(ps, f, g, i, ps[i].m, [], j, params, params, getString, fuel);
      }
    } else if i < |ps| {
      match One(ps[i].cfg, ps[i].m, params, ps[i].func, getString, fuel) {
        case NotCalled =>
        case Ran(m, back, status, retVal) =>
          var (stop, value) := Weigh(et, retVal, soFar);
          var call := PluginCall(i, params, back, status, retVal);
          DoneFirst(ps, f, i, params, getString, fuel);
          if !stop {
            EachCall(et, ps, i + 1, back, value, getString, fuel);
            var g := ForwardFrom(et, ps, i + 1, back, value, getString, fuel);
            forall j | 0 < j < |f.calls| ensures Done(ps, f, i, j, params, getString, fuel) {
              DoneLater(ps, f, g, i, m, [call], j - 1, params, back, getString, fuel);
            }
          }
      }
    }
  }

  lemma DoneFirst(ps: seq<Plugin>, f: ForwardResult, i: nat, params: seq<Param>,
                  getString: (Memory, int) -> seq<char8>, fuel: nat)
    requires i < |ps| && |f.machines| == |ps| - i && f.calls != []
    requires f.calls[0].plugin == i && f.calls[0].given == params
    requires One(ps[i].cfg, ps[i].m, params, ps[i].func, getString, fuel)
      == Ran(f.machines[0], f.calls[0].back, f.calls[0].status, f.calls[0].retVal)
    ensures Done(ps, f, i, 0, params, getString, fuel)
  {
    hide One;
  }

  lemma DoneLater(ps: seq<Plugin>, f: ForwardResult, g: ForwardResult, i: nat, m: Machine, front: seq<PluginCall>, j: nat,
                  params: seq<Param>, back: seq<Param>, getString: (Memory, int) -> seq<char8>, fuel: nat)
    requires i < |ps| && |g.machines| == |ps| - i - 1 && f.machines == [m] + g.machines && f.calls == front + g.calls
    requires |front| <= 1 && back == if front == [] then params else front[0].back
    requires j < |g.calls| && Done(ps, g, i + 1, j, back, getString, fuel)
    ensures Done(ps, f, i, j + |front|, params, getString, fuel)
  {
    hide One;
    var c := g.calls[j];
    assert f.calls[j + |front|] == c && f.machines[c.plugin - i] == g.machines[c.plugin - i - 1];
    assert j > 0 ==> f.calls[j + |front| - 1] == g.calls[j-1];
  }

  /** What a call has brought back: parameters by kind, and the value of the plugin's function. */
  ghost predicate Brought(ps: seq<Plugin>, f: ForwardResult, j: nat, getString: (Memory, int) -> seq<char8>, fuel: nat)
    requires |f.machines| == |ps| && j < |f.calls|
  {
    var c := f.calls[j];
    && c.plugin < |ps| && |c.back| == |c.given|
    && var p, m' := ps[c.plugin], f.machines[c.plugin];
    && (forall i :: 0 <= i < |c.given| && BlockIn(c.given[i], m'.mem, BlockOf(c.given, i, p.m.hea)) ==>
          BroughtBack(c.given[i], c.back[i], m'.mem, BlockOf(c.given, i, p.m.hea), getString))
    && c.retVal == ReturnedBy(HaltState(p.cfg, EntryOf(p.m, c.given), p.func, fuel))
  }

  /** Over all plugins: every call brings back what its callee leaves behind. */
  lemma AllBrought(et: ExecType, ps: seq<Plugin>, params: seq<Param>, getString: (Memory, int) -> seq<char8>, fuel: nat)
    ensures var f := Forward(et, ps, params, getString, fuel);
      forall j :: 0 <= j < |f.calls| ==> Brought(ps, f, j, getString, fuel)
  {
    hide One, ForwardFrom, BlockOf, BlockIn, BroughtBack, HaltState, EntryOf, ReturnedBy, BlocksFit;
    var f := Forward(et, ps, params, getString, fuel);
    EachCall(et, ps, 0, params, 0, getString, fuel);
    forall j | 0 <= j < |f.calls| ensures Brought(ps, f, j, getString, fuel) {
      assert Done(ps, f, 0, j, params, getString, fuel);
      var c := f.calls[j];
      var p := ps[c.plugin];
      WhenRan(p, c.given, getString, fuel);
      OneBrings(p.cfg, p.m, c.given, p.func, getString, fuel);
    }
  }

  /** A plugin that is not called is untouched. */
  lemma {:induction false} OthersUntouched(et: ExecType, ps: seq<Plugin>, i: nat, params: seq<Param>, soFar: cell,
                                           getString: (Memory, int) -> seq<char8>, fuel: nat, k: nat)
    requires i <= k < |ps|
    ensures var f := ForwardFrom(et, ps, i, params, soFar, getString, fuel);
      k !in CalledPlugins(f.calls) ==> f.machines[k-i] == ps[k].m
    decreases |ps| - i
  {
    hide One, Weigh;
    if !ps[i].executable {
      if k > i { OthersUntouched(et, ps, i + 1, params, soFar, getString, fuel, k); }
    } else {
      match One(ps[i].cfg, ps[i].m, params, ps[i].func, getString, fuel) {
        case NotCalled =>
        case Ran(m, back, status, retVal) =>
          var (stop, value) := Weigh(et, retVal, soFar);
          var call := PluginCall(i, params, back, status, retVal);
          var f := ForwardFrom(et, ps, i, params, soFar, getString, fuel);
          assert CalledPlugins(f.calls)[0] == i;
          if !stop && k > i {
            OthersUntouched(et, ps, i + 1, back, value, getString, fuel, k);
            OneMoreRan(et, call, ForwardFrom(et, ps, i + 1, back, value, getString, fuel).calls, soFar);
          }
      }
    }
  }

  /** Over all plugins: the machine of every plugin whose call ended has its stack and heap back,
      and a plugin that was not called is untouched. */
  lemma AllRestored(et: ExecType, ps: seq<Plugin>, params: seq<Param>, getString: (Memory, int) -> seq<char8>, fuel: nat)
    requires forall i :: 0 <= i < |ps| ==> 0 <= ps[i].m.stk
    ensures var f := Forward(et, ps, params, getString, fuel);
      && (forall j :: 0 <= j < |f.calls| ==> Restored(ps, f, j))
      && (forall k :: 0 <= k < |ps| && k !in CalledPlugins(f.calls) ==> f.machines[k] == ps[k].m)
  {
    hide One, Base, ForwardFrom;
    var f := Forward(et, ps, params, getString, fuel);
    EachCall(et, ps, 0, params, 0, getString, fuel);
    forall j | 0 <= j < |f.calls| ensures Restored(ps, f, j) {
      assert Done(ps, f, 0, j, params, getString, fuel);
      var c := f.calls[j];
      var p := ps[c.plugin];
      WhenRan(p, c.given, getString, fuel);
      OneConserves(p.cfg, p.m, c.given, p.func, getString, fuel);
    }
    forall k | 0 <= k < |ps| && k !in CalledPlugins(f.calls) ensures f.machines[k] == ps[k].m {
      OthersUntouched(et, ps, 0, params, 0, getString, fuel, k);
    }
  }

  /** A call that ended has given stack and heap back. */
  predicate Restored(ps: seq<Plugin>, f: ForwardResult, j: nat)
    requires |f.machines| == |ps| && j < |f.calls|
  {
    var c := f.calls[j];
    && c.plugin < |ps|
    && (c.status.Ended? ==>
          f.machines[c.plugin].stk == Base(ps[c.plugin].m) && f.machines[c.plugin].hea == ps[c.plugin].m.hea)
  }

  lemma WhenRan(p: Plugin, params: seq<Param>, getString: (Memory, int) -> seq<char8>, fuel: nat)
    requires One(p.cfg, p.m, params, p.func, getString, fuel).Ran?
    ensures BlocksFit(params, |params|, p.m.hea, p.m.stk)
  {
    hide BlocksFit;
  }

  // ----- the loop over the plugins -----

  datatype Target = Target(amx: Amx, func: int, executable: bool)

  predicate Distinct(plugins: seq<Target>) {
    forall i, j :: 0 <= i < j < |plugins| ==> plugins[i].amx != plugins[j].amx
  }

  ghost function PluginsOf(targets: seq<Target>): (ps: seq<Plugin>)
    reads set t <- targets :: t.amx
    ensures |ps| == |targets|
  {
    seq(|targets|, i requires 0 <= i < |targets| reads set t <- targets :: t.amx =>
      assert targets[i] in targets;
      Plugin(targets[i].amx.cfg, targets[i].amx.Current(), targets[i].func, targets[i].executable))
  }

  /** CForward::execute */
  method ExecuteForward(et: ExecType, plugins: seq<Target>, args: array<Param>, getString: (Memory, int) -> seq<char8>, fuel: nat)
    returns (ok: bool, result: cell, ghost calls: seq<PluginCall>)
    requires Distinct(plugins) && forall t <- plugins :: t.func != EXEC_CONT
    requires args.Length <= FORWARD_MAX_PARAMS
    modifies args, set t <- plugins :: t.amx
    ensures var f := Forward(et, old(PluginsOf(plugins)), old(args[..]), getString, fuel);
      && ok == f.ok && calls == f.calls && result == f.result
      && (ok ==> args[..] == f.params && Machines(PluginsOf(plugins)) == f.machines)
  {
    hide One, Weigh, ForwardFrom, Distinct, BlocksFit, Machines, Executables;
    ghost var ps := PluginsOf(plugins);
    ghost var f := Forward(et, ps, args[..], getString, fuel);
    ghost var done: seq<Machine> := [];
    var i := 0;
    result, calls := 0, [];
    while i < |plugins|
      invariant 0 <= i <= |plugins| && |done| == i
      invariant var g := ForwardFrom(et, ps, i, args[..], result, getString, fuel);
        && f.ok == g.ok && f.result == g.result && f.params == g.params
        && f.calls == calls + g.calls && f.machines == done + g.machines
      invariant forall k :: 0 <= k < i ==> plugins[k].amx.Current() == done[k]
      invariant forall k :: i <= k < |plugins| ==> plugins[k].amx.Current() == ps[k].m
    {
      var t := plugins[i];
      assert t in plugins && ps[i] == Plugin(t.amx.cfg, t.amx.Current(), t.func, t.executable);
      DistinctFrom(plugins, i);
      ForwardStep(et, ps, i, args[..], result, getString, fuel, calls, done);
      ghost var given := args[..];
      if t.executable {
        OneCalled(ps[i], given, getString, fuel);
        var called, status, retVal := ExecuteOne(t.amx, t.func, args, getString, fuel);
        if !called { return false, result, calls; }
        var (stop, value) := Weigh(et, retVal, result);
        result := value;
        calls := calls + [PluginCall(i, given, args[..], status, retVal)];
        if stop {
          StoppedMachines(plugins, done, ps, i);
          return true, result, calls;
        }
      }
      done := done + [t.amx.Current()];
      i := i + 1;
    }
    ForwardStep(et, ps, i, args[..], result, getString, fuel, calls, done);
    AllMachines(plugins, done);
    ok := true;
  }

  lemma OneCalled(p: Plugin, params: seq<Param>, getString: (Memory, int) -> seq<char8>, fuel: nat)
    ensures BlocksFit(params, |params|, p.m.hea, p.m.stk) <==> One(p.cfg, p.m, params, p.func, getString, fuel).Ran?
  {
    hide BlocksFit;
  }

  lemma StoppedMachines(plugins: seq<Target>, done: seq<Machine>, ps: seq<Plugin>, i: nat)
    requires |ps| == |plugins| && i < |ps| && |done| == i
    requires forall k :: 0 <= k < i ==> plugins[k].amx.Current() == done[k]
    requires forall k :: i < k < |plugins| ==> plugins[k].amx.Current() == ps[k].m
    ensures Machines(PluginsOf(plugins)) == done + [plugins[i].amx.Current()] + Machines(ps[i+1..])
  {
    AllMachines(plugins, done + [plugins[i].amx.Current()] + Machines(ps[i+1..]));
  }

  lemma AllMachines(plugins: seq<Target>, machines: seq<Machine>)
    requires |machines| == |plugins| && forall k :: 0 <= k < |plugins| ==> plugins[k].amx.Current() == machines[k]
    ensures Machines(PluginsOf(plugins)) == machines
  {
  }

  lemma DistinctFrom(plugins: seq<Target>, i: nat)
    requires Distinct(plugins) && i < |plugins|
    ensures forall j :: 0 <= j < |plugins| && j != i ==> plugins[j].amx != plugins[i].amx
  {
  }

  /** One round, with what has been done before in front. */
  lemma ForwardStep(et: ExecType, ps: seq<Plugin>, i: nat, params: seq<Param>, soFar: cell, getString: (Memory, int) -> seq<char8>,
                    fuel: nat, calls: seq<PluginCall>, done: seq<Machine>)
    requires i <= |ps|
    ensures var f := ForwardFrom(et, ps, i, params, soFar, getString, fuel);
      if i == |ps| then f.ok && f.result == soFar && f.params == params && calls + f.calls == calls && done + f.machines == done
      else if !ps[i].executable then
        var g := ForwardFrom(et, ps, i + 1, params, soFar, getString, fuel);
        && f == g.(machines := f.machines) && done + f.machines == (done + [ps[i].m]) + g.machines
      else match One(ps[i].cfg, ps[i].m, params, ps[i].func, getString, fuel)
        case NotCalled => !f.ok && f.result == soFar && calls + f.calls == calls
        case Ran(m, back, status, retVal) =>
          var (stop, value) := Weigh(et, retVal, soFar);
          var call := PluginCall(i, params, back, status, retVal);
          if stop then
            && f.ok && f.result == value && f.params == back && calls + f.calls == calls + [call]
            && done + f.machines == done + [m] + Machines(ps[i+1..])
          else
            var g := ForwardFrom(et, ps, i + 1, back, value, getString, fuel);
            && f.ok == g.ok && f.result == g.result && f.params == g.params
            && calls + f.calls == (calls + [call]) + g.calls && done + f.machines == (done + [m]) + g.machines
  {
    hide One, Weigh;
  }
}

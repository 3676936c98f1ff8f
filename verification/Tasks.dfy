/**
  The scheduler of plugin tasks (CTask.cpp).

  Tasks live in slots that are reused.  Every frame the manager visits the slots and calls the
  tasks that are due; a callback can register, remove and change tasks, its own included.
  Time is exact here.
*/
module Tasks {

  /** The fields of a CTask; `amx` stands for the plugin, 0 for none. */
  datatype Task = Task(
    free: bool, inExecute: bool, amx: int, id: int, func: int,
    repeats: int, loop: bool, afterStart: bool, beforeEnd: bool, base: real, nextExecTime: real)

  datatype Clock = Clock(now: real, limit: real, left: real)

  /** What a callback can do. */
  datatype Op =
    | Register(amx: int, func: int, flags: nat, id: int, base: real, repeats: int)
    | Remove(id: int, amx: int)
    | Change(id: int, amx: int, newBase: real)

  /** What the callback of a slot does, given the tasks when it is called. */
  type Script = (seq<Task>, nat) -> seq<Op>

  const NEW_TASK := Task(true, false, 0, 0, -1, 0, false, false, false, 0.0, 0.0)

  // ----- one task -----

  /** CTask::clear */
  function Cleared(t: Task): Task {
    NEW_TASK.(inExecute := t.inExecute)
  }

  predicate Flag(flags: nat, bit: nat)
    requires bit > 0
  {
    flags / bit % 2 == 1
  }

  /** CTask::set, which clears the slot first */
  function SetTask(op: Op, now: real): Task
    requires op.Register?
  {
    var t := NEW_TASK.(free := false, amx := op.amx, id := op.id, func := op.func, base := op.base);
    var u := if Flag(op.flags, 2) then t.(loop := true, repeats := -1)
             else if Flag(op.flags, 1) then t.(loop := true, repeats := op.repeats)
             else t;
    u.(afterStart := Flag(op.flags, 4), beforeEnd := Flag(op.flags, 8), nextExecTime := now + op.base)
  }

  predicate Matches(t: Task, id: int, amx: int) {
    !t.free && (amx != 0 ==> t.amx == amx) && t.id == id
  }

  predicate Due(t: Task, c: Clock) {
    if t.afterStart then c.now - c.left + 1.0 >= t.base
    else if t.beforeEnd then c.limit != 0.0 && (c.left + c.limit * 60.0) - c.now - 1.0 <= t.base
    else t.nextExecTime <= c.now
  }

  /** A repeating task without repetitions left is not called. */
  predicate Calls(t: Task, c: Clock) {
    Due(t, c) && !(t.loop && t.repeats == 0)
  }

  /** A task after it was due: rescheduled, or cleared. */
  function Consumed(t: Task): Task {
    if !t.loop then Cleared(t)
    else if t.repeats == -1 then t.(nextExecTime := t.nextExecTime + t.base)
    else if t.repeats - 1 <= 0 then Cleared(t)
    else t.(repeats := t.repeats - 1, nextExecTime := t.nextExecTime + t.base)
  }

  // ----- operations on all tasks -----

  /** The first slot that can be reused. */
  function Reusable(ts: seq<Task>, i: nat): (r: nat)
    requires i <= |ts|
    ensures i <= r <= |ts|
    ensures r < |ts| ==> ts[r].free && !ts[r].inExecute
    ensures forall k :: i <= k < r ==> !ts[k].free || ts[k].inExecute
    decreases |ts| - i
  {
    if i == |ts| || (ts[i].free && !ts[i].inExecute) then i else Reusable(ts, i + 1)
  }

  function Applied(ts: seq<Task>, op: Op, now: real): (r: seq<Task>)
    ensures |ts| <= |r|
  {
    match op
    case Register(_, _, _, _, _, _) =>
      var k := Reusable(ts, 0);
      if k < |ts| then ts[k := SetTask(op, now)] else ts + [SetTask(op, now)]
    case Remove(id, amx) =>
      seq<Task>(|ts|, i requires 0 <= i < |ts| => if Matches(ts[i], id, amx) then Cleared(ts[i]) else ts[i])
    case Change(id, amx, newBase) =>
      seq<Task>(|ts|, i requires 0 <= i < |ts| => if Matches(ts[i], id, amx) then Changed(ts[i], newBase, now) else ts[i])
  }

  /** changeBase and resetNextExecTime */
  function Changed(t: Task, newBase: real, now: real): Task {
    t.(base := newBase, nextExecTime := if t.inExecute then t.nextExecTime else now + newBase)
  }

  function AppliedAll(ts: seq<Task>, ops: seq<Op>, now: real): (r: seq<Task>)
    ensures |ts| <= |r|
    decreases |ops|
  {
    if ops == [] then ts else AppliedAll(Applied(ts, ops[0], now), ops[1..], now)
  }

  /** CTask::executeIfRequired for slot `i`. */
  function Executed(ts: seq<Task>, i: nat, c: Clock, script: Script): (r: seq<Task>)
    requires i < |ts|
    ensures |ts| <= |r|
  {
    if !Due(ts[i], c) then ts else
      var called := if !Calls(ts[i], c) then ts else
        var during := ts[i := ts[i].(inExecute := true)];
        var after := AppliedAll(during, script(during, i), c.now);
        after[i := after[i].(inExecute := false)];
      if called[i].free then called else called[i := Consumed(called[i])]
  }

  /** CTaskMngr::startFrame from slot `i` on; `count` is the number of slots when it began. */
  function Frame(ts: seq<Task>, i: nat, count: nat, c: Clock, script: Script): (r: seq<Task>)
    requires i <= count <= |ts|
    ensures |ts| <= |r|
    decreases count - i
  {
    if i == count then ts
    else Frame(if ts[i].free then ts else Executed(ts, i, c, script), i + 1, count, c, script)
  }

  // ----- slot safety -----

  /** What can happen to an executing task: nothing, a new base, or removal for good. */
  predicate SameOrGone(t: Task, t': Task) {
    t'.inExecute == t.inExecute && (t'.free || (!t.free && t' == t.(base := t'.base)))
  }

  lemma AppliedKeepsExecuting(ts: seq<Task>, op: Op, now: real, k: nat)
    requires k < |ts| && ts[k].inExecute
    ensures SameOrGone(ts[k], Applied(ts, op, now)[k])
  {
  }

  /** While a slot executes it is not given to a new task, whatever the callback does. */
  lemma {:induction false} ExecutingSlotNotReused(ts: seq<Task>, ops: seq<Op>, now: real, k: nat)
    requires k < |ts| && ts[k].inExecute
    ensures SameOrGone(ts[k], AppliedAll(ts, ops, now)[k])
    decreases |ops|
  {
    if ops != [] {
      AppliedKeepsExecuting(ts, ops[0], now, k);
      ExecutingSlotNotReused(Applied(ts, ops[0], now), ops[1..], now, k);
    }
  }

  /** So after its callback a slot is free, or holds the rescheduled task that was called. */
  lemma ExecutedSlot(ts: seq<Task>, i: nat, c: Clock, script: Script)
    requires i < |ts| && !ts[i].free && !ts[i].inExecute && Due(ts[i], c)
    ensures var t := Executed(ts, i, c, script)[i];
      t.free || exists base :: t == Consumed(ts[i].(base := base))
  {
    if Calls(ts[i], c) {
      var during := ts[i := ts[i].(inExecute := true)];
      ExecutingSlotNotReused(during, script(during, i), c.now, i);
      var after := AppliedAll(during, script(during, i), c.now)[i];
      assert after.free || after.(inExecute := false) == ts[i].(base := after.base);
    } else {
      assert ts[i] == ts[i].(base := ts[i].base);
    }
  }

  // ----- a task that is left alone -----

  /** A task after one frame in which nobody removes or changes it. */
  function Alone(t: Task, c: Clock): Task {
    if t.free || !Due(t, c) then t else Consumed(t)
  }

  predicate Targets(op: Op, t: Task) {
    match op
    case Register(_, _, _, _, _, _) => false
    case Remove(id, amx) => id == t.id && (amx == 0 || amx == t.amx)
    case Change(id, amx, _) => id == t.id && (amx == 0 || amx == t.amx)
  }

  /** No callback removes or changes this one; they may do anything else. */
  ghost predicate LeftAlone(t: Task, script: Script) {
    forall ts, i, op :: op in script(ts, i) ==> !Targets(op, t)
  }

  lemma StillLeftAlone(t: Task, t': Task, script: Script)
    requires LeftAlone(t, script) && t'.id == t.id && t'.amx == t.amx
    ensures LeftAlone(t', script)
  {
    forall ts, i, op | op in script(ts, i)
      ensures !Targets(op, t')
    {
      assert !Targets(op, t);
    }
  }

  lemma {:induction false} AppliedLeaves(ts: seq<Task>, ops: seq<Op>, now: real, k: nat)
    requires k < |ts| && !ts[k].free && forall op <- ops :: !Targets(op, ts[k])
    ensures AppliedAll(ts, ops, now)[k] == ts[k]
    decreases |ops|
  {
    if ops != [] {
      assert ops[0] in ops && !Targets(ops[0], ts[k]);
      assert Applied(ts, ops[0], now)[k] == ts[k];
      AppliedLeaves(Applied(ts, ops[0], now), ops[1..], now, k);
    }
  }

  /** The slots whose tasks are called in a frame, in order. */
  function FrameCalls(ts: seq<Task>, i: nat, count: nat, c: Clock, script: Script): seq<nat>
    requires i <= count <= |ts|
    decreases count - i
  {
    if i == count then [] else
      var called: seq<nat> := if !ts[i].free && Calls(ts[i], c) then [i] else [];
      called + FrameCalls(if ts[i].free then ts else Executed(ts, i, c, script), i + 1, count, c, script)
  }

  predicate Ascending(slots: seq<nat>, lo: nat, hi: nat) {
    && (forall x :: 0 <= x < |slots| ==> lo <= slots[x] < hi)
    && (forall x, y :: 0 <= x < y < |slots| ==> slots[x] < slots[y])
  }

  /** In a frame every slot is called at most once. */
  lemma {:induction false} AtMostOneCall(ts: seq<Task>, i: nat, count: nat, c: Clock, script: Script)
    requires i <= count <= |ts|
    ensures Ascending(FrameCalls(ts, i, count, c, script), i, count)
    decreases count - i
  {
    if i < count {
      AtMostOneCall(if ts[i].free then ts else Executed(ts, i, c, script), i + 1, count, c, script);
    }
  }

  lemma ExecutedLeaves(ts: seq<Task>, i: nat, c: Clock, script: Script, k: nat)
    requires i < |ts| && k < |ts| && !ts[k].free && LeftAlone(ts[k], script)
    requires i == k ==> !ts[k].inExecute
    ensures Executed(ts, i, c, script)[k] == if i == k then Alone(ts[k], c) else ts[k]
  {
    if Due(ts[i], c) && Calls(ts[i], c) {
      var during := ts[i := ts[i].(inExecute := true)];
      forall op | op in script(during, i)
        ensures !Targets(op, during[k])
      {
        assert !Targets(op, ts[k]);
      }
      AppliedLeaves(during, script(during, i), c.now, k);
    }
  }

  /** A task that is left alone is called in a frame exactly if it is due and has a repetition
      left; until it is done it is otherwise as if it were the only one. */
  lemma {:induction false} FrameOfOne(ts: seq<Task>, i: nat, count: nat, c: Clock, script: Script, k: nat)
    requires i <= k < count <= |ts| && !ts[k].free && !ts[k].inExecute && LeftAlone(ts[k], script)
    ensures k in FrameCalls(ts, i, count, c, script) <==> Calls(ts[k], c)
    ensures !Alone(ts[k], c).free ==> Frame(ts, i, count, c, script)[k] == Alone(ts[k], c)
    decreases count - i
  {
    hide Executed, LeftAlone, Due;
    var next := if ts[i].free then ts else Executed(ts, i, c, script);
    if !ts[i].free { ExecutedLeaves(ts, i, c, script, k); }
    if i < k {
      FrameOfOne(next, i + 1, count, c, script, k);
    } else {
      AtMostOneCall(next, i + 1, count, c, script);
      var rest := FrameCalls(next, i + 1, count, c, script);
      assert k !in rest;
      if !Alone(ts[k], c).free {
        StillLeftAlone(ts[k], next[k], script);
        FrameRest(next, i + 1, count, c, script, k);
      }
    }
  }

  lemma {:induction false} FrameRest(ts: seq<Task>, i: nat, count: nat, c: Clock, script: Script, k: nat)
    requires k < i <= count <= |ts| && !ts[k].free && LeftAlone(ts[k], script)
    ensures Frame(ts, i, count, c, script)[k] == ts[k]
    decreases count - i
  {
    if i < count {
      if !ts[i].free { ExecutedLeaves(ts, i, c, script, k); }
      FrameRest(if ts[i].free then ts else Executed(ts, i, c, script), i + 1, count, c, script, k);
    }
  }

  // ----- many frames -----

  function Frames(ts: seq<Task>, cs: seq<Clock>, script: Script): (r: seq<Task>)
    ensures |ts| <= |r|
    decreases |cs|
  {
    if cs == [] then ts else Frames(Frame(ts, 0, |ts|, cs[0], script), cs[1..], script)
  }

  /** The frames in which slot `k` is called, the first of which has number `n`. */
  function CalledFrames(ts: seq<Task>, cs: seq<Clock>, script: Script, k: nat, n: nat): seq<nat>
    decreases |cs|
  {
    if cs == [] then [] else
      var called: seq<nat> := if k in FrameCalls(ts, 0, |ts|, cs[0], script) then [n] else [];
      called + CalledFrames(Frame(ts, 0, |ts|, cs[0], script), cs[1..], script, k, n + 1)
  }

  function AloneAfter(t: Task, cs: seq<Clock>): Task
    decreases |cs|
  {
    if cs == [] then t else AloneAfter(Alone(t, cs[0]), cs[1..])
  }

  function CallsAlone(t: Task, cs: seq<Clock>, n: nat): seq<nat>
    decreases |cs|
  {
    if cs == [] then [] else
      var called: seq<nat> := if !t.free && Calls(t, cs[0]) then [n] else [];
      called + CallsAlone(Alone(t, cs[0]), cs[1..], n + 1)
  }

  /** For any other tasks and callbacks, a task that is left alone is called in the frames in
      which it would be called if it were the only one, up to its last call. */
  lemma {:induction false} RunOfOne(ts: seq<Task>, cs: seq<Clock>, script: Script, k: nat, n: nat)
    requires k < |ts| && !ts[k].free && !ts[k].inExecute && LeftAlone(ts[k], script)
    requires cs != [] ==> !AloneAfter(ts[k], cs[..|cs|-1]).free
    ensures CalledFrames(ts, cs, script, k, n) == CallsAlone(ts[k], cs, n)
    ensures !AloneAfter(ts[k], cs).free ==> Frames(ts, cs, script)[k] == AloneAfter(ts[k], cs)
    decreases |cs|
  {
    if cs != [] {
      var t := Alone(ts[k], cs[0]);
      var ts' := Frame(ts, 0, |ts|, cs[0], script);
      FrameOfOne(ts, 0, |ts|, cs[0], script, k);
      if |cs| == 1 {
        assert cs[1..] == [];
      } else {
        assert cs[..|cs|-1][1..] == cs[1..][..|cs|-2] && cs[..|cs|-1][0] == cs[0];
        if t.free { StaysFree(t, cs[1..][..|cs|-2]); }
        StillLeftAlone(ts[k], t, script);
        RunOfOne(ts', cs[1..], script, k, n + 1);
      }
    }
  }

  lemma {:induction false} StaysFree(t: Task, cs: seq<Clock>)
    requires t.free
    ensures AloneAfter(t, cs) == t
    decreases |cs|
  {
    if cs != [] { StaysFree(t, cs[1..]); }
  }

  lemma {:induction false} NoCalls(t: Task, cs: seq<Clock>, n: nat)
    requires t.free
    ensures CallsAlone(t, cs, n) == []
    decreases |cs|
  {
    if cs != [] { NoCalls(t, cs[1..], n + 1); }
  }

  // ----- how often, and when -----

  predicate Plain(t: Task) { !t.free && !t.afterStart && !t.beforeEnd }

  /** The number of calls of a task before it is removed; -1 when it repeats for ever.  A
      repetition count that is negative, other than -1, gives one call. */
  function Total(t: Task): int {
    if !t.loop then 1 else if t.repeats < -1 then 1 else t.repeats
  }

  /** A plain task that is left alone makes exactly its number of calls and is free after the
      last one; before that, call number j (from 0) is never before nextExecTime + j*base, with
      no drift, and every frame in which it is due calls it. */
  lemma {:induction false} CallsOfPlainTask(t: Task, cs: seq<Clock>, n: nat)
    requires Plain(t) && Total(t) != 0
    ensures var calls, t' := CallsAlone(t, cs, n), AloneAfter(t, cs);
      && (Total(t) > 0 ==> |calls| <= Total(t) && (t'.free <==> |calls| == Total(t)))
      && (Total(t) == -1 ==> !t'.free)
      && (!t'.free ==> t'.nextExecTime == PlannedTime(t, |calls|))
      && OnTime(t, cs, n, calls)
    decreases |cs|
  {
    hide OnTime, PlannedTime;
    PlannedFirst(t);
    if cs == [] {
      NoneOnTime(t, cs, n);
    } else {
      var u := Alone(t, cs[0]);
      var calls, later := CallsAlone(t, cs, n), CallsAlone(u, cs[1..], n + 1);
      if u.free {
        NoCalls(u, cs[1..], n + 1);
        StaysFree(u, cs[1..]);
        NoneOnTime(u, cs[1..], n + 1);
      } else {
        CallsOfPlainTask(u, cs[1..], n + 1);
        if Due(t, cs[0]) { PlannedNext(t, u, |later|); }
      }
      if Due(t, cs[0]) {
        assert calls == [n] + later;
        FirstOnTime(t, u, cs, n, later);
      } else {
        assert calls == later && u == t;
        NotYet(t, cs, n, calls);
      }
    }
  }

  /** When call number `j` is planned. */
  function PlannedTime(t: Task, j: nat): real {
    t.nextExecTime + j as real * t.base
  }

  lemma PlannedFirst(t: Task)
    ensures PlannedTime(t, 0) == t.nextExecTime
  {
  }

  lemma PlannedNext(t: Task, u: Task, j: nat)
    requires u.base == t.base && u.nextExecTime == t.nextExecTime + t.base
    ensures PlannedTime(t, j + 1) == PlannedTime(u, j)
  {
  }

  /** The frames `calls`, counted from `n`, ascend and none is early. */
  predicate OnTime(t: Task, cs: seq<Clock>, n: nat, calls: seq<nat>) {
    && (forall j :: 0 <= j < |calls| ==>
          n <= calls[j] < n + |cs| && cs[calls[j] - n].now >= PlannedTime(t, j))
    && (forall j, l :: 0 <= j < l < |calls| ==> calls[j] < calls[l])
  }

  lemma NoneOnTime(t: Task, cs: seq<Clock>, n: nat)
    ensures OnTime(t, cs, n, [])
  {
  }

  lemma NotYet(t: Task, cs: seq<Clock>, n: nat, calls: seq<nat>)
    requires cs != [] && OnTime(t, cs[1..], n + 1, calls)
    ensures OnTime(t, cs, n, calls)
  {
    forall j | 0 <= j < |calls|
      ensures n <= calls[j] < n + |cs| && cs[calls[j] - n] == cs[1..][calls[j] - (n + 1)]
    {
    }
  }

  lemma FirstOnTime(t: Task, u: Task, cs: seq<Clock>, n: nat, later: seq<nat>)
    requires cs != [] && t.nextExecTime <= cs[0].now && OnTime(u, cs[1..], n + 1, later)
    requires later == [] || (u.base == t.base && u.nextExecTime == t.nextExecTime + t.base)
    ensures OnTime(t, cs, n, [n] + later)
  {
    var calls := [n] + later;
    forall j | 0 <= j < |calls|
      ensures n <= calls[j] < n + |cs| && cs[calls[j] - n].now >= PlannedTime(t, j)
    {
      if j > 0 {
        assert calls[j] == later[j-1] && cs[calls[j] - n] == cs[1..][later[j-1] - (n + 1)];
        PlannedNext(t, u, j - 1);
      }
    }
  }

  /** A task that is set to repeat 0 times is removed when it is due, without a call. */
  lemma {:induction false} NeverCalled(t: Task, cs: seq<Clock>, n: nat)
    requires Plain(t) && Total(t) == 0
    ensures CallsAlone(t, cs, n) == []
    decreases |cs|
  {
    if cs != [] {
      if Due(t, cs[0]) { NoCalls(Alone(t, cs[0]), cs[1..], n + 1); }
      else { NeverCalled(t, cs[1..], n + 1); }
    }
  }

  // ----- from the registration on -----

  /** The frames, counted from `n`, in which something is called that has been called `j` times:
      all in which it is due, until it has been called `total` times; -1 is no limit. */
  function Schedule(due: (Clock, nat) -> bool, total: int, cs: seq<Clock>, j: nat, n: nat): seq<nat>
    decreases |cs|
  {
    if cs == [] || j == total then []
    else if due(cs[0], j) then [n] + Schedule(due, total, cs[1..], j + 1, n + 1)
    else Schedule(due, total, cs[1..], j, n + 1)
  }

  /** When a task is due for the next time: the one after call number `j` is planned `j + 1`
      intervals after `start`, unless it is tied to the start or the end of the map. */
  function Interval(flags: nat, start: real, base: real): (Clock, nat) -> bool {
    (c: Clock, j: nat) =>
      if flags / 4 % 2 == 1 then c.now - c.left + 1.0 >= base
      else if flags / 8 % 2 == 1 then c.limit != 0.0 && c.left + c.limit * 60.0 - c.now - 1.0 <= base
      else c.now >= start + (j + 1) as real * base
  }

  /** How often a task with the given flags is called: without end, as often as it repeats, or once. */
  function Times(flags: nat, repeats: int): int {
    if flags / 2 % 2 == 1 then -1
    else if flags % 2 == 1 then if repeats < -1 then 1 else repeats
    else 1
  }

  /** The frame of call `i`, counted from `n`, is not before call number `j + i` is planned. */
  predicate NotEarly(calls: seq<nat>, i: nat, cs: seq<Clock>, n: nat, start: real, base: real, j: nat)
    requires i < |calls|
  {
    n <= calls[i] < n + |cs| && cs[calls[i] - n].now >= After(start, base, j + i + 1)
  }

  function After(start: real, base: real, intervals: nat): real { start + intervals as real * base }

  predicate NoneEarly(calls: seq<nat>, cs: seq<Clock>, n: nat, start: real, base: real, j: nat) {
    forall i :: 0 <= i < |calls| ==> NotEarly(calls, i, cs, n, start, base, j)
  }

  lemma NoneEarlyBefore(later: seq<nat>, cs: seq<Clock>, n: nat, start: real, base: real, j: nat, first: bool)
    requires cs != [] && NoneEarly(later, cs[1..], n + 1, start, base, if first then j + 1 else j)
    requires first ==> cs[0].now >= After(start, base, j + 1)
    ensures NoneEarly(if first then [n] + later else later, cs, n, start, base, j)
  {
    hide After;
    var calls := if first then [n] + later else later;
    forall i | 0 <= i < |calls| ensures NotEarly(calls, i, cs, n, start, base, j) {
      if !first || i > 0 {
        var i' := if first then i - 1 else i;
        assert calls[i] == later[i'] && NotEarly(later, i', cs[1..], n + 1, start, base, if first then j + 1 else j);
        assert cs[calls[i] - n] == cs[1..][calls[i] - (n + 1)];
      }
    }
  }

  /** None is made before its time. */
  lemma {:induction false} ScheduledOnTime(flags: nat, start: real, base: real, total: int, cs: seq<Clock>, j: nat, n: nat)
    requires flags / 4 % 2 == 0 && flags / 8 % 2 == 0 && (total < 0 || j <= total)
    ensures var calls := Schedule(Interval(flags, start, base), total, cs, j, n);
      (total >= 0 ==> |calls| <= total - j) && NoneEarly(calls, cs, n, start, base, j)
    decreases |cs|
  {
    hide NoneEarly;
    if cs != [] && j != total {
      var first := Interval(flags, start, base)(cs[0], j);
      var j' := if first then j + 1 else j;
      ScheduledOnTime(flags, start, base, total, cs[1..], j', n + 1);
      NoneEarlyBefore(Schedule(Interval(flags, start, base), total, cs[1..], j', n + 1), cs, n, start, base, j, first);
    } else {
      NothingEarly(cs, n, start, base, j);
    }
  }

  lemma NothingEarly(cs: seq<Clock>, n: nat, start: real, base: real, j: nat)
    ensures NoneEarly([], cs, n, start, base, j)
  {
  }

  /** The task as it is after `j` of its calls. */
  ghost predicate InStep(t: Task, flags: nat, start: real, base: real, total: int, j: nat) {
    && !t.free && t.base == base && total >= -1 && (total == -1 || j <= total)
    && (t.afterStart <==> flags / 4 % 2 == 1) && (t.beforeEnd <==> flags / 8 % 2 == 1)
    && t.nextExecTime == start + (j + 1) as real * base
    && Total(t) == if total == -1 then -1 else total - j
  }

  lemma NextInStep(t: Task, flags: nat, start: real, base: real, total: int, j: nat, c: Clock)
    requires InStep(t, flags, start, base, total, j)
    ensures Due(t, c) <==> Interval(flags, start, base)(c, j)
    ensures j != total ==> !(t.loop && t.repeats == 0)
    ensures j != total && j + 1 != total ==> InStep(Consumed(t), flags, start, base, total, j + 1)
    ensures j + 1 == total || j == total ==> Consumed(t).free
  {
    Planned(start, base, j);
  }

  lemma Planned(start: real, base: real, j: nat)
    ensures start + (j + 1) as real * base + base == start + (j + 2) as real * base
  {
  }

  lemma {:induction false} NeverDue(due: (Clock, nat) -> bool, total: nat, cs: seq<Clock>, n: nat)
    ensures Schedule(due, total, cs, total, n) == []
  {
  }

  lemma {:induction false} CallsScheduled(t: Task, flags: nat, start: real, base: real, total: int, cs: seq<Clock>, j: nat, n: nat)
    requires InStep(t, flags, start, base, total, j)
    ensures CallsAlone(t, cs, n) == Schedule(Interval(flags, start, base), total, cs, j, n)
    ensures AloneAfter(t, cs).free ==> |CallsAlone(t, cs, n)| == total - j
    ensures !AloneAfter(t, cs).free ==>
      AloneAfter(t, cs).id == t.id && AloneAfter(t, cs).func == t.func && AloneAfter(t, cs).amx == t.amx
    decreases |cs|
  {
    hide InStep, Interval, Due, Consumed;
    if cs != [] {
      NextInStep(t, flags, start, base, total, j, cs[0]);
      KeepsName(t);
      assert !t.free by { StepFacts(t, flags, start, base, total, j); }
      StepFacts(t, flags, start, base, total, j);
      if !Due(t, cs[0]) {
        CallsScheduled(t, flags, start, base, total, cs[1..], j, n + 1);
        if j == total { NeverDue(Interval(flags, start, base), total, cs[1..], n + 1); }
      } else if j == total || j + 1 == total {
        NoCalls(Consumed(t), cs[1..], n + 1);
        StaysFree(Consumed(t), cs[1..]);
        if j + 1 == total { NeverDue(Interval(flags, start, base), total, cs[1..], n + 1); }
      } else {
        CallsScheduled(Consumed(t), flags, start, base, total, cs[1..], j + 1, n + 1);
      }
    } else {
      StepFacts(t, flags, start, base, total, j);
    }
  }

  lemma KeepsName(t: Task)
    ensures !Consumed(t).free ==> Consumed(t).id == t.id && Consumed(t).func == t.func && Consumed(t).amx == t.amx
  {
  }

  lemma StepFacts(t: Task, flags: nat, start: real, base: real, total: int, j: nat)
    requires InStep(t, flags, start, base, total, j)
    ensures !t.free && total >= -1 && (j == total ==> t.loop && t.repeats == 0)
  {
  }

  /** With any other tasks and callbacks, the first calls of a slot are those of the task in it, as
      it would be called alone; as long as it is there these are all. */
  lemma {:induction false} RunBegins(ts: seq<Task>, cs: seq<Clock>, script: Script, k: nat, n: nat)
    requires k < |ts| && !ts[k].free && !ts[k].inExecute && LeftAlone(ts[k], script)
    ensures CallsAlone(ts[k], cs, n) <= CalledFrames(ts, cs, script, k, n)
    ensures !AloneAfter(ts[k], cs).free ==>
      CalledFrames(ts, cs, script, k, n) == CallsAlone(ts[k], cs, n) && Frames(ts, cs, script)[k] == AloneAfter(ts[k], cs)
    decreases |cs|
  {
    hide LeftAlone, Due;
    if cs != [] {
      var t, ts' := Alone(ts[k], cs[0]), Frame(ts, 0, |ts|, cs[0], script);
      FrameOfOne(ts, 0, |ts|, cs[0], script, k);
      if t.free {
        NoCalls(t, cs[1..], n + 1);
        StaysFree(t, cs[1..]);
      } else {
        StillLeftAlone(ts[k], t, script);
        RunBegins(ts', cs[1..], script, k, n + 1);
      }
    }
  }

  /** A registered task goes to the first slot that is free and not executing, or to a new one, and is
      called from there as its flags say: the interval after the registration for the first time,
      then at every interval, as often as it is to repeat.  Whatever else the callbacks do. */
  lemma RegisteredTask(ts: seq<Task>, op: Op, now: real, cs: seq<Clock>, script: Script, n: nat) returns (k: nat)
    requires op.Register? && forall ts', i, other :: other in script(ts', i) ==> !Addresses(other, op.id, op.amx)
    ensures k <= |ts| && (k < |ts| ==> ts[k].free && !ts[k].inExecute) && forall i :: 0 <= i < k ==> !ts[i].free || ts[i].inExecute
    ensures var ts' := Applied(ts, op, now);
      && (forall i :: 0 <= i < |ts| && i != k ==> ts'[i] == ts[i])
      && k < |ts'| && !ts'[k].free && ts'[k].id == op.id && ts'[k].amx == op.amx && ts'[k].func == op.func
      && var own := Schedule(Interval(op.flags, now, op.base), Times(op.flags, op.repeats), cs, 0, n);
      && own <= CalledFrames(ts', cs, script, k, n)
      && (|own| != Times(op.flags, op.repeats) ==>
            CalledFrames(ts', cs, script, k, n) == own && Frames(ts', cs, script)[k].func == op.func)
  {
    hide Interval, CalledFrames, Frames, LeftAlone;
    k := Reusable(ts, 0);
    var t := SetTask(op, now);
    Registered(op, now);
    NotAddressed(t, op, script);
    CallsScheduled(t, op.flags, now, op.base, Times(op.flags, op.repeats), cs, 0, n);
    RunBegins(Applied(ts, op, now), cs, script, k, n);
  }

  lemma Registered(op: Op, now: real)
    requires op.Register?
    ensures var t := SetTask(op, now);
      && InStep(t, op.flags, now, op.base, Times(op.flags, op.repeats), 0)
      && !t.inExecute && t.id == op.id && t.amx == op.amx && t.func == op.func
  {
  }

  /** The operation removes or changes the tasks with this id and plugin. */
  predicate Addresses(op: Op, id: int, amx: int) {
    (op.Remove? || op.Change?) && op.id == id && (op.amx == 0 || op.amx == amx)
  }

  lemma NotAddressed(t: Task, op: Op, script: Script)
    requires op.Register? && t.id == op.id && t.amx == op.amx
    requires forall ts, i, other :: other in script(ts, i) ==> !Addresses(other, op.id, op.amx)
    ensures LeftAlone(t, script)
  {
    forall ts, i, other | other in script(ts, i) ensures !Targets(other, t) {
      assert !Addresses(other, op.id, op.amx);
    }
  }

  /** The calls that are left to a task. */
  function TimesLeft(t: Task): int {
    if !t.loop || t.repeats < -1 then 1 else t.repeats
  }

  /** A new interval counts from the change, and from the next call on for a task that is executing. */
  lemma ChangedTask(ts: seq<Task>, id: int, amx: int, newBase: real, now: real, cs: seq<Clock>, k: nat, n: nat)
    requires k < |ts| && Plain(ts[k]) && ts[k].id == id && (amx == 0 || ts[k].amx == amx)
    ensures var t := Applied(ts, Change(id, amx, newBase), now)[k];
      if ts[k].inExecute then
        t == ts[k].(base := newBase)
      else
        && t == ts[k].(base := newBase, nextExecTime := t.nextExecTime)
        && CallsAlone(t, cs, n) == Schedule(Interval(0, now, newBase), TimesLeft(ts[k]), cs, 0, n)
  {
    var t := Applied(ts, Change(id, amx, newBase), now)[k];
    if !ts[k].inExecute { CallsScheduled(t, 0, now, newBase, TimesLeft(ts[k]), cs, 0, n); }
  }

  /** Exactly the tasks that are addressed are removed or changed. */
  lemma OnlyAddressed(ts: seq<Task>, op: Op, now: real, k: nat)
    requires !op.Register? && k < |ts|
    ensures |Applied(ts, op, now)| == |ts|
    ensures Applied(ts, op, now)[k] != ts[k] ==> !ts[k].free && Addresses(op, ts[k].id, ts[k].amx)
    ensures op.Remove? && Addresses(op, ts[k].id, ts[k].amx) ==> Applied(ts, op, now)[k].free
    ensures op.Remove? ==> Applied(ts, op, now)[k].inExecute == ts[k].inExecute
  {
  }

  lemma FrameStep(ts: seq<Task>, i: nat, count: nat, c: Clock, script: Script)
    requires i <= count <= |ts|
    ensures i == count ==> Frame(ts, i, count, c, script) == ts && FrameCalls(ts, i, count, c, script) == []
    ensures i < count && ts[i].free ==>
      Frame(ts, i, count, c, script) == Frame(ts, i + 1, count, c, script)
      && FrameCalls(ts, i, count, c, script) == FrameCalls(ts, i + 1, count, c, script)
    ensures i < count && !ts[i].free ==>
      var next := Executed(ts, i, c, script);
      Frame(ts, i, count, c, script) == Frame(next, i + 1, count, c, script)
      && FrameCalls(ts, i, count, c, script)
         == (if Calls(ts[i], c) then [i as nat] else []) + FrameCalls(next, i + 1, count, c, script)
  {
    hide Executed, Calls;
  }

  lemma CallsInOrder(before: seq<nat>, here: seq<nat>, rest: seq<nat>)
    ensures (before + here) + rest == before + (here + rest)
  {
  }

  // ----- the manager -----

  /** The slots of the tasks that are addressed. */
  function Addressed(ts: seq<Task>, id: int, amx: int): set<nat> {
    set k: nat | k < |ts| && !ts[k].free && ts[k].id == id && (amx == 0 || ts[k].amx == amx)
  }

  lemma {:induction false} CountIsAddressed(ts: seq<Task>, id: int, amx: int)
    ensures CountMatches(ts, id, amx) == |Addressed(ts, id, amx)|
  {
    if ts != [] {
      var n := |ts| - 1;
      CountIsAddressed(ts[..n], id, amx);
      assert Addressed(ts, id, amx) == Addressed(ts[..n], id, amx) + if Matches(ts[n], id, amx) then {n as nat} else {};
    }
  }

  function CountMatches(ts: seq<Task>, id: int, amx: int): nat {
    if ts == [] then 0 else CountMatches(ts[..|ts|-1], id, amx) + if Matches(ts[|ts|-1], id, amx) then 1 else 0
  }

  class TaskMngr {
    var tasks: seq<Task>
    /** The slots whose tasks have been called, in order. */
    ghost var called: seq<nat>

    constructor ()
      ensures tasks == [] && called == []
    {
      tasks, called := [], [];
    }

    method RegisterTask(op: Op, now: real)
      requires op.Register?
      modifies `tasks
      ensures tasks == Applied(old(tasks), op, now)
    {
      var i := 0;
      while i < |tasks|
        invariant 0 <= i <= |tasks| && tasks == old(tasks) && Reusable(tasks, 0) == Reusable(tasks, i)
      {
        if tasks[i].free && !tasks[i].inExecute {
          tasks := tasks[i := SetTask(op, now)];
          return;
        }
        i := i + 1;
      }
      tasks := tasks + [SetTask(op, now)];
    }

    method RemoveTasks(id: int, amx: int) returns (removed: nat)
      modifies `tasks
      ensures tasks == Applied(old(tasks), Remove(id, amx), 0.0) && removed == |Addressed(old(tasks), id, amx)|
    {
      var i := 0;
      removed := 0;
      while i < |tasks|
        invariant 0 <= i <= |tasks| == |old(tasks)|
        invariant forall k :: 0 <= k < |tasks| ==>
          tasks[k] == if k < i && Matches(old(tasks)[k], id, amx) then Cleared(old(tasks)[k]) else old(tasks)[k]
        invariant removed == CountMatches(old(tasks)[..i], id, amx)
      {
        assert old(tasks)[..i+1][..i] == old(tasks)[..i];
        if Matches(tasks[i], id, amx) {
          tasks := tasks[i := Cleared(tasks[i])];
          removed := removed + 1;
        }
        i := i + 1;
      }
      assert old(tasks)[..i] == old(tasks);
      CountIsAddressed(old(tasks), id, amx);
    }

    method ChangeTasks(id: int, amx: int, newBase: real, now: real) returns (changed: nat)
      modifies `tasks
      ensures tasks == Applied(old(tasks), Change(id, amx, newBase), now) && changed == |Addressed(old(tasks), id, amx)|
    {
      var i := 0;
      changed := 0;
      while i < |tasks|
        invariant 0 <= i <= |tasks| == |old(tasks)|
        invariant forall k :: 0 <= k < |tasks| ==>
          tasks[k] == if k < i && Matches(old(tasks)[k], id, amx) then Changed(old(tasks)[k], newBase, now) else old(tasks)[k]
        invariant changed == CountMatches(old(tasks)[..i], id, amx)
      {
        assert old(tasks)[..i+1][..i] == old(tasks)[..i];
        if Matches(tasks[i], id, amx) {
          tasks := tasks[i := Changed(tasks[i], newBase, now)];
          changed := changed + 1;
        }
        i := i + 1;
      }
      assert old(tasks)[..i] == old(tasks);
      CountIsAddressed(old(tasks), id, amx);
    }

    /** A callback: the forward that is executed for a task. */
    method Callback(ops: seq<Op>, now: real)
      modifies `tasks
      ensures tasks == AppliedAll(old(tasks), ops, now)
      decreases |ops|
    {
      if ops != [] {
        match ops[0] {
          case Register(_, _, _, _, _, _) => RegisterTask(ops[0], now);
          case Remove(id, amx) => var _ := RemoveTasks(id, amx);
          case Change(id, amx, newBase) => var _ := ChangeTasks(id, amx, newBase, now);
        }
        Callback(ops[1..], now);
      }
    }

    method ExecuteIfRequired(i: nat, c: Clock, script: Script)
      requires i < |tasks|
      modifies this
      ensures tasks == Executed(old(tasks), i, c, script)
      ensures called == old(called) + if Calls(old(tasks)[i], c) then [i] else []
    {
      hide AppliedAll;
      var execute := false;
      if tasks[i].afterStart {
        if c.now - c.left + 1.0 >= tasks[i].base { execute := true; }
      } else if tasks[i].beforeEnd {
        if c.limit != 0.0 && (c.left + c.limit * 60.0) - c.now - 1.0 <= tasks[i].base { execute := true; }
      } else if tasks[i].nextExecTime <= c.now {
        execute := true;
      }
      assert execute <==> Due(tasks[i], c);
      if execute {
        if !(tasks[i].loop && tasks[i].repeats == 0) {
          called := called + [i];
          tasks := tasks[i := tasks[i].(inExecute := true)];
          Callback(script(tasks, i), c.now);
          tasks := tasks[i := tasks[i].(inExecute := false)];
        }
        ghost var before := tasks;
        if tasks[i].free { return; }
        var done := false;
        if tasks[i].loop {
          if tasks[i].repeats != -1 {
            tasks := tasks[i := tasks[i].(repeats := tasks[i].repeats - 1)];
            if tasks[i].repeats <= 0 { done := true; }
          }
        } else {
          done := true;
        }
        if done {
          tasks := tasks[i := Cleared(tasks[i])];
        } else {
          tasks := tasks[i := tasks[i].(nextExecTime := tasks[i].nextExecTime + tasks[i].base)];
        }
        assert tasks == before[i := Consumed(before[i])];
      }
    }

    method StartFrame(c: Clock, script: Script)
      modifies this
      ensures tasks == Frame(old(tasks), 0, |old(tasks)|, c, script)
      ensures called == old(called) + FrameCalls(old(tasks), 0, |old(tasks)|, c, script)
    {
      hide Frame, FrameCalls, Executed, Calls;
      var lastSize := |tasks|;
      var i := 0;
      while i < lastSize
        invariant 0 <= i <= lastSize <= |tasks|
        invariant Frame(tasks, i, lastSize, c, script) == Frame(old(tasks), 0, lastSize, c, script)
        invariant called + FrameCalls(tasks, i, lastSize, c, script)
               == old(called) + FrameCalls(old(tasks), 0, lastSize, c, script)
      {
        FrameStep(tasks, i, lastSize, c, script);
        if !tasks[i].free {
          ghost var here: seq<nat> := if Calls(tasks[i], c) then [i] else [];
          CallsInOrder(called, here, FrameCalls(Executed(tasks, i, c, script), i + 1, lastSize, c, script));
          ExecuteIfRequired(i, c, script);
        }
        i := i + 1;
      }
      FrameStep(tasks, i, lastSize, c, script);
      assert called + [] == called;
    }
  }
}

/**
  The debugger's shadow call stack (debugger.cpp, `Debugger::Tracer`).

  Once per statement the debugger sees the frame and the instruction pointer of a plugin, and
  keeps a list of trace nodes: one node per active call, each with the last instruction seen
  in it.  Nodes are never freed by a return or a reset, only marked as unused and recycled.
*/
module Tracing {

  datatype Frame = Frame(frm: int, cip: int)

  // ----- the stack that is to be tracked -----

  /** What one observed step does to the tracked frames, outermost first. */
  function Observed(stack: seq<Frame>, frm: int, cip: int): seq<Frame>
    requires Trackable(stack, frm)
  {
    if stack == [] then [Frame(frm, cip)]
    else
      var n := |stack|;
      if stack[n-1].frm > frm then stack + [Frame(frm, cip)]
      else if stack[n-1].frm < frm then stack[..n-2] + [Frame(stack[n-2].frm, cip)]
      else stack[..n-1] + [Frame(frm, cip)]
  }

  /** The step does not go above the first frame. */
  predicate Trackable(stack: seq<Frame>, frm: int) {
    |stack| == 1 ==> stack[0].frm >= frm
  }

  predicate Descending(stack: seq<Frame>) {
    forall i, j :: 0 <= i < j < |stack| ==> stack[i].frm > stack[j].frm
  }

  /** What happens between two statements of a plugin: a call that makes a frame further down
      the stack, a return to the frame above, or neither. */
  datatype Move = Call(frm: int, cip: int) | Return(cip: int) | Stay(cip: int)

  predicate Possible(stack: seq<Frame>, m: Move) {
    match m
    case Call(frm, _) => stack != [] ==> frm < stack[|stack|-1].frm
    case Return(_) => |stack| >= 2
    case Stay(_) => stack != []
  }

  function Moved(stack: seq<Frame>, m: Move): seq<Frame>
    requires Possible(stack, m)
  {
    match m
    case Call(frm, cip) => stack + [Frame(frm, cip)]
    case Return(cip) => stack[..|stack|-2] + [Frame(stack[|stack|-2].frm, cip)]
    case Stay(cip) => stack[..|stack|-1] + [Frame(stack[|stack|-1].frm, cip)]
  }

  predicate AllPossible(stack: seq<Frame>, ms: seq<Move>)
    decreases |ms|
  {
    ms == [] || (Possible(stack, ms[0]) && AllPossible(Moved(stack, ms[0]), ms[1..]))
  }

  function MovedAll(stack: seq<Frame>, ms: seq<Move>): seq<Frame>
    requires AllPossible(stack, ms)
    decreases |ms|
  {
    if ms == [] then stack else MovedAll(Moved(stack, ms[0]), ms[1..])
  }

  /** The steps that the debugger sees: frame and instruction after every move. */
  function Steps(stack: seq<Frame>, ms: seq<Move>): seq<Frame>
    requires AllPossible(stack, ms)
    decreases |ms|
  {
    if ms == [] then [] else
      var next := Moved(stack, ms[0]);
      [next[|next|-1]] + Steps(next, ms[1..])
  }

  predicate AllTrackable(stack: seq<Frame>, steps: seq<Frame>)
    decreases |steps|
  {
    steps == [] ||
    (Trackable(stack, steps[0].frm) && AllTrackable(Observed(stack, steps[0].frm, steps[0].cip), steps[1..]))
  }

  function ObservedAll(stack: seq<Frame>, steps: seq<Frame>): seq<Frame>
    requires AllTrackable(stack, steps)
    decreases |steps|
  {
    if steps == [] then stack else ObservedAll(Observed(stack, steps[0].frm, steps[0].cip), steps[1..])
  }

  /** When every move is by one frame, what the debugger tracks is the call stack. */
  lemma {:induction false} TracksCallStack(stack: seq<Frame>, ms: seq<Move>)
    requires Descending(stack) && AllPossible(stack, ms)
    ensures AllTrackable(stack, Steps(stack, ms)) && ObservedAll(stack, Steps(stack, ms)) == MovedAll(stack, ms)
    ensures Descending(MovedAll(stack, ms))
    decreases |ms|
  {
    if ms != [] {
      var next := Moved(stack, ms[0]);
      var step := next[|next|-1];
      assert Observed(stack, step.frm, step.cip) == next;
      assert Descending(next);
      TracksCallStack(next, ms[1..]);
    }
  }

  /** A step shows in the right frame exactly if it is at most one frame up. */
  lemma TracksOneFrameUp(stack: seq<Frame>, frm: int, cip: int)
    requires stack != [] && Trackable(stack, frm)
    ensures var top := Observed(stack, frm, cip);
      top[|top|-1] == Frame(frm, cip) <==> frm <= stack[|stack|-1].frm || frm == stack[|stack|-2].frm
  {
  }

  /** What an execution does: statements of its own, and executions nested in it (by natives that
      call back into the same plugin). */
  datatype Part = Statement(frm: int, cip: int) | Nested(parts: seq<Part>)

  /** The statements of the execution itself. */
  function Own(parts: seq<Part>): seq<Frame> {
    if parts == [] then []
    else if parts[0].Nested? then Own(parts[1..])
    else [Frame(parts[0].frm, parts[0].cip)] + Own(parts[1..])
  }

  predicate NestedTrackable(parts: seq<Part>)
    decreases parts
  {
    forall p <- parts :: p.Nested? ==> AllTrackable([], Own(p.parts)) && NestedTrackable(p.parts)
  }

  function Backtrace(stack: seq<Frame>): seq<Frame> {
    seq(|stack|, i requires 0 <= i < |stack| => stack[|stack|-1-i])
  }

  /** The last frame is shown first. */
  lemma LastFrameFirst(stack: seq<Frame>, f: Frame)
    ensures Backtrace(stack + [f]) == [f] + Backtrace(stack) && Backtrace(Backtrace(stack)) == stack
  {
  }

  // ----- the linked list -----

  class TraceInfo {
    var cip: int
    var frm: int
    var next: TraceInfo?
    var prev: TraceInfo?
    var used: bool
    /** Its place in the list. */
    ghost const place: nat

    constructor (ghost place: nat)
      ensures cip == 0 && frm == 0 && next == null && prev == null && !used && this.place == place
    {
      cip, frm, next, prev, used := 0, 0, null, null, false;
      this.place := place;
    }
  }

  /** The node with number `i` of a list whose first `depth` nodes are in use. */
  ghost predicate Linked(nodes: seq<TraceInfo>, depth: nat, i: nat)
    requires i < |nodes|
    reads nodes
  {
    && nodes[i].next == (if i + 1 < |nodes| then nodes[i+1] else null)
    && nodes[i].prev == (if i > 0 then nodes[i-1] else null)
    && nodes[i].used == (i < depth)
    && nodes[i].place == i
    && (0 < i < depth ==> nodes[i-1].frm > nodes[i].frm)
  }

  class Tracer {
    var error: int
    var start: TraceInfo?
    var end: TraceInfo?
    /** All nodes in list order, and how many of them are in use. */
    ghost var nodes: seq<TraceInfo>
    ghost var depth: nat

    constructor ()
      ensures Valid() && nodes == [] && Stack() == [] && error == 0
    {
      error, start, end := 0, null, null;
      nodes, depth := [], 0;
    }

    ghost predicate Valid()
      reads this, nodes
    {
      && depth <= |nodes|
      && (forall i :: 0 <= i < |nodes| ==> Linked(nodes, depth, i))
      && start == (if nodes == [] then null else nodes[0])
      && end == (if depth == 0 then null else nodes[depth-1])
    }

    ghost function Stack(): (s: seq<Frame>)
      requires Valid()
      reads this, nodes
      ensures |s| == depth
    {
      seq(depth, i requires 0 <= i < depth && depth <= |nodes| reads this, nodes =>
        Frame(nodes[i].frm, nodes[i].cip))
    }

    /** The last frame has moved down: a new call. */
    method Enter(frm: int)
      requires Valid() && end != null && end.frm > frm
      modifies this, nodes
      ensures Valid() && depth == old(depth) + 1 && error == old(error)
      ensures Stack()[..old(depth)] == old(Stack()) && Stack()[old(depth)].frm == frm
      ensures old(nodes) <= nodes && forall x :: x in nodes && x !in old(nodes) ==> fresh(x)
      ensures |nodes| == if depth > |old(nodes)| then depth else |old(nodes)|
    {
      assert Linked(nodes, depth, depth - 1);
      if end.next != null {
        Reuse(frm);
      } else {
        Append(frm);
      }
    }

    /** The next node becomes the last one in use. */
    method Reuse(frm: int)
      requires Valid() && depth > 0 && end.frm > frm && end.next != null
      modifies this, nodes
      ensures Valid() && nodes == old(nodes) && depth == old(depth) + 1 <= |nodes| && error == old(error)
      ensures Stack()[..old(depth)] == old(Stack()) && Stack()[old(depth)].frm == frm
    {
      assert Linked(nodes, depth, depth - 1) && Linked(nodes, depth, depth);
      end := end.next;
      end.used := true;
      end.frm := frm;
      depth := depth + 1;
      forall i | 0 <= i < |nodes| ensures Linked(nodes, depth, i) {
        assert old(Linked(nodes, depth, i));
        assert i > 0 ==> old(Linked(nodes, depth, i - 1));
      }
      forall i | 0 <= i < old(depth) ensures Stack()[i] == old(Stack())[i] {
        assert old(Linked(nodes, depth, i));
      }
    }

    /** A new node becomes the last one in use. */
    method Append(frm: int)
      requires Valid() && depth > 0 && end.frm > frm && end.next == null
      modifies this, nodes
      ensures Valid() && depth == old(depth) + 1 && error == old(error)
      ensures depth == |nodes| == |old(nodes)| + 1 && old(nodes) <= nodes && fresh(nodes[depth-1])
      ensures Stack()[..old(depth)] == old(Stack()) && Stack()[old(depth)].frm == frm
    {
      assert Linked(nodes, depth, depth - 1);
      var info := new TraceInfo(|nodes|);
      end.next := info;
      info.prev := end;
      info.used := true;
      end := info;
      end.frm := frm;
      nodes := nodes + [info];
      depth := depth + 1;
      forall i | 0 <= i < |nodes| ensures Linked(nodes, depth, i) {
        assert i < |old(nodes)| ==> old(Linked(nodes, depth, i));
        assert 0 < i < |old(nodes)| ==> old(Linked(nodes, depth, i - 1));
      }
      forall i | 0 <= i < old(depth) ensures Stack()[i] == old(Stack())[i] {
        assert old(Linked(nodes, depth, i));
      }
    }

    /** The first statement that is seen. */
    method Begin(frm: int)
      requires Valid() && end == null
      modifies this, nodes
      ensures Valid() && depth == 1 && error == old(error) && Stack()[0].frm == frm
      ensures old(nodes) <= nodes && forall x :: x in nodes && x !in old(nodes) ==> fresh(x)
      ensures |nodes| == if depth > |old(nodes)| then depth else |old(nodes)|
    {
      if start == null {
        start := new TraceInfo(0);
        nodes := [start];
      }
      end := start;
      end.frm := frm;
      end.used := true;
      depth := 1;
      forall i | 0 <= i < |nodes| ensures Linked(nodes, depth, i) {
        assert i < |old(nodes)| ==> old(Linked(nodes, depth, i)) && old(Linked(nodes, depth, 0));
      }
    }

    /** The last frame has moved up: its call has returned. */
    method Leave()
      requires Valid() && depth > 1
      modifies this, nodes
      ensures Valid() && nodes == old(nodes) && error == old(error)
      ensures Stack() == old(Stack())[..old(depth)-1]
    {
      assert Linked(nodes, depth, depth - 1);
      end.used := false;
      end := end.prev;
      depth := depth - 1;
      forall i | 0 <= i < |nodes| ensures Linked(nodes, depth, i) {
        assert old(Linked(nodes, depth, i));
        assert i > 0 ==> old(Linked(nodes, depth, i - 1));
      }
    }

    method SaveCip(cip: int)
      requires Valid() && depth > 0
      modifies nodes
      ensures Valid() && Stack() == old(Stack())[depth-1 := Frame(old(end.frm), cip)]
    {
      assert Linked(nodes, depth, depth - 1);
      end.cip := cip;
      forall i | 0 <= i < |nodes| ensures Linked(nodes, depth, i) {
        assert old(Linked(nodes, depth, i));
      }
      forall i | 0 <= i < depth - 1 ensures Stack()[i] == old(Stack())[i] {
        assert Linked(nodes, depth, i) && Linked(nodes, depth, depth - 1);
      }
    }

    method StepI(frm: int, cip: int)
      requires Valid() && Trackable(Stack(), frm)
      modifies this, nodes
      ensures Valid() && Stack() == Observed(old(Stack()), frm, cip) && error == old(error)
      ensures old(nodes) <= nodes && forall x :: x in nodes && x !in old(nodes) ==> fresh(x)
      // a node is made only when the stack is deeper than ever before
      ensures |nodes| == if depth > |old(nodes)| then depth else |old(nodes)|
    {
      hide Linked;
      if end == null {
        Begin(frm);
      } else {
        assert Stack()[depth-1].frm == end.frm;
        if end.frm > frm {
          Enter(frm);
        } else if end.frm < frm {
          Leave();
        }
        assert Stack()[depth-1].frm == end.frm;
      }
      assert forall i :: 0 <= i < |nodes| ==> nodes[i] in old(nodes) || fresh(nodes[i]);
      // no matter where the frame is, the current instruction is saved
      SaveCip(cip);
    }

    method Reset()
      requires Valid()
      modifies this, nodes
      ensures Valid() && Stack() == [] && nodes == old(nodes) && error == 0
    {
      var info := start;
      ghost var k := 0;
      while info != null && info.used
        invariant k <= depth && nodes == old(nodes) && depth == old(depth)
        invariant info == if k < |nodes| then nodes[k] else null
        invariant forall i :: k <= i < |nodes| ==> Linked(nodes, depth, i)
        invariant forall i :: 0 <= i < k ==> Linked(nodes, 0, i)
        modifies nodes
        decreases depth - k
      {
        assert Linked(nodes, depth, k);
        label Before:
        info.used := false;
        forall i | k < i < |nodes| ensures Linked(nodes, depth, i) {
          assert old@Before(Linked(nodes, depth, i));
        }
        forall i | 0 <= i < k ensures Linked(nodes, 0, i) {
          assert old@Before(Linked(nodes, 0, i));
        }
        info := info.next;
        k := k + 1;
      }
      forall i | k <= i < |nodes| ensures Linked(nodes, 0, i) {
        assert Linked(nodes, depth, i);
        assert Linked(nodes, depth, k);
      }
      end := null;
      error := 0;
      depth := 0;
    }

    /** Returns the nodes in the order in which they are deleted: each of them once. */
    method Clear() returns (ghost deleted: seq<TraceInfo>)
      requires Valid()
      modifies this
      ensures Valid() && Stack() == [] && nodes == [] && error == 0
      ensures deleted == old(nodes)
    {
      deleted := [];
      var info := start;
      while info != null
        invariant deleted <= nodes
        invariant info == if |deleted| < |nodes| then nodes[|deleted|] else null
        decreases |nodes| - |deleted|
      {
        assert Linked(nodes, depth, |deleted|);
        var next := info.next;
        deleted := deleted + [info];
        info := next;
      }
      start, end := null, null;
      error := 0;
      nodes, depth := [], 0;
    }
  }

  /** A tracer is not affected by changes elsewhere. */
  twostate lemma Untouched(t: Tracer)
    requires old(t.Valid()) && unchanged(t) && unchanged(set x | x in t.nodes)
    ensures t.Valid() && t.Stack() == old(t.Stack())
  {
  }

  // ----- one tracer for every nested execution -----

  class Debugger {
    var top: int
    var calls: seq<Tracer>
    ghost var repr: set<TraceInfo>

    constructor ()
      ensures Valid() && Traces() == []
    {
      top, calls, repr := -1, [], {};
    }

    ghost predicate Owned(i: nat)
      requires i < |calls|
      reads `calls, `repr, calls, repr
    {
      (forall x :: x in calls[i].nodes ==> x in repr) && calls[i].Valid()
    }

    ghost predicate Valid()
      reads this, calls, repr
    {
      && -1 <= top < |calls|
      && (forall i :: 0 <= i < |calls| ==> Owned(i))
      && (forall i, j :: 0 <= i < j < |calls| ==> calls[i] != calls[j])
      && (forall i, j, x :: 0 <= i < j < |calls| && x in calls[i].nodes ==> x !in calls[j].nodes)
    }

    /** The tracked stacks of the executions under way, outermost first. */
    ghost function Traces(): (t: seq<seq<Frame>>)
      requires Valid()
      reads this, calls, repr
      ensures |t| == top + 1
    {
      seq(top + 1, i requires 0 <= i < |calls| && Owned(i) reads this, calls, repr => calls[i].Stack())
    }

    method BeginExec()
      requires Valid()
      modifies `top, `calls, calls, repr
      ensures Valid() && Traces() == old(Traces()) + [[]]
      ensures forall t :: t in calls ==> t in old(calls) || fresh(t)
      ensures fresh(repr - old(repr))
    {
      hide Linked;
      assert top + 1 < |calls| ==> Owned(top + 1);
      top := top + 1;
      if top >= |calls| {
        var tracer := new Tracer();
        calls := calls + [tracer];
      }
      calls[top].Reset();
      forall i | 0 <= i < |old(calls)| && i != top
        ensures old(Owned(i)) && Owned(i) && calls[i].Stack() == old(calls[i].Stack())
      {
        assert old(Owned(i));
        Untouched(calls[i]);
      }
    }

    method EndExec()
      requires Valid() && top >= 0
      modifies `top, calls, repr
      ensures Valid() && Traces() == old(Traces())[..old(top)]
      ensures calls == old(calls) && repr == old(repr)
    {
      hide Linked;
      assert Owned(top);
      calls[top].Reset();
      forall i | 0 <= i < |calls| && i != top
        ensures old(Owned(i)) && Owned(i) && calls[i].Stack() == old(calls[i].Stack())
      {
        assert old(Owned(i));
        Untouched(calls[i]);
      }
      top := top - 1;
    }

    method StepI(frm: int, cip: int)
      requires Valid() && top >= 0 && Trackable(Traces()[top], frm)
      modifies `repr, calls, repr
      ensures Valid()
      ensures Traces() == old(Traces())[top := Observed(old(Traces()[top]), frm, cip)]
      ensures fresh(repr - old(repr))
    {
      hide Linked, Observed;
      assert Owned(top);
      calls[top].StepI(frm, cip);
      repr := repr + set x | x in calls[top].nodes;
      forall i | 0 <= i < |calls| && i != top
        ensures old(Owned(i)) && Owned(i) && calls[i].Stack() == old(calls[i].Stack())
      {
        assert old(Owned(i));
        Untouched(calls[i]);
      }
    }

    /** Abandons all executions; their nodes are recycled later. */
    method Reset()
      requires Valid()
      modifies `top
      ensures Valid() && Traces() == [] && calls == old(calls)
    {
      top := -1;
    }

    method GetTraceStart() returns (info: TraceInfo?)
      requires Valid() && top >= 0
      ensures info == calls[top].end
    {
      info := calls[top].end;
    }

    static method GetNextTrace(info: TraceInfo) returns (next: TraceInfo?)
      ensures next == if info.prev == null || !info.prev.used then null else info.prev
    {
      if info.prev == null || !info.prev.used {
        return null;
      }
      return info.prev;
    }

    /** The frames that are shown for a run-time error, innermost first. */
    method DisplayTrace() returns (shown: seq<Frame>)
      requires Valid() && top >= 0
      ensures shown == Backtrace(Traces()[top])
    {
      assert Owned(top);
      shown := [];
      var info := GetTraceStart();
      ghost var tracer := calls[top];
      while info != null
        invariant |shown| <= tracer.depth && shown == Backtrace(tracer.Stack())[..|shown|]
        invariant info == if |shown| < tracer.depth then tracer.nodes[tracer.depth-1-|shown|] else null
        decreases tracer.depth - |shown|
      {
        assert Linked(tracer.nodes, tracer.depth, tracer.depth-1-|shown|);
        if |shown| + 1 < tracer.depth {
          assert Linked(tracer.nodes, tracer.depth, tracer.depth-2-|shown|);
        }
        ghost var all, n := Backtrace(tracer.Stack()), |shown|;
        assert all[n] == Frame(info.frm, info.cip);
        assert all[..n + 1] == all[..n] + [all[n]];
        shown := shown + [Frame(info.frm, info.cip)];
        info := GetNextTrace(info);
      }
    }

    /** The parts of the execution on top. */
    method Perform(parts: seq<Part>)
      requires Valid() && top >= 0
      requires AllTrackable(Traces()[top], Own(parts)) && NestedTrackable(parts)
      modifies this, calls, repr
      ensures Valid() && top == old(top)
      ensures Traces() == old(Traces())[top := ObservedAll(old(Traces()[top]), Own(parts))]
      ensures forall t :: t in calls ==> t in old(calls) || fresh(t)
      ensures fresh(repr - old(repr))
      decreases parts, 0
    {
      hide Linked, Observed, Trackable, Valid;
      if parts != [] {
        if parts[0].Nested? {
          assert parts[0] in parts;
          var _ := Execute(parts[0].parts);
        } else {
          StepI(parts[0].frm, parts[0].cip);
        }
        assert forall p <- parts[1..] :: p in parts;
        assert forall i :: 0 <= i < |calls| ==> calls[i] in old(calls) || fresh(calls[i]);
        Perform(parts[1..]);
      }
    }

    /** An execution from beginning to end, with the trace that an error at its end would show:
        its own frames alone, whatever has been nested in it. */
    method Execute(parts: seq<Part>) returns (shown: seq<Frame>)
      requires Valid() && AllTrackable([], Own(parts)) && NestedTrackable(parts)
      modifies this, calls, repr
      ensures Valid() && Traces() == old(Traces())
      ensures shown == Backtrace(ObservedAll([], Own(parts)))
      ensures forall t :: t in calls ==> t in old(calls) || fresh(t)
      ensures fresh(repr - old(repr))
      decreases parts
    {
      hide Linked, Observed, Trackable, Valid;
      BeginExec();
      assert forall i :: 0 <= i < |calls| ==> calls[i] in old(calls) || fresh(calls[i]);
      Perform(parts);
      assert forall i :: 0 <= i < |calls| ==> calls[i] in old(calls) || fresh(calls[i]);
      shown := DisplayTrace();
      EndExec();
    }
  }
}

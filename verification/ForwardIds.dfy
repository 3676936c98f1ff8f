/**
  The ids of single-plugin forwards (CForward.cpp, `CForwardMngr`).

  The id of the forward in slot k is 2*k + 1.  Unregistered slots are kept on a stack and
  reused; a forward that is unregistered while it executes is only marked, and goes to the
  stack when its execution is over.
*/
module ForwardIds {

  datatype Slot = Slot(hasFunc: bool, inExec: bool, toDelete: bool, isFree: bool)

  /** m_SPForwards and m_FreeSPForwards; the top of the stack is its last element. */
  datatype Mngr = Mngr(slots: seq<Slot>, free: seq<int>)

  function IdOf(k: nat): int { 2 * k + 1 }

  /** isIdValid, for ids of single-plugin forwards. */
  predicate ValidId(m: Mngr, id: int) {
    0 <= id && id % 2 == 1 && id / 2 < |m.slots|
  }

  /** CSPForward::Set */
  function NewSlot(hasFunc: bool): Slot { Slot(hasFunc, false, false, false) }

  function Top(free: seq<int>): (id: int)
    requires free != []
    ensures id in free
  {
    free[|free|-1]
  }

  /** registerSPForward; `hasFunc` tells whether the function was found. */
  function Registered(m: Mngr, hasFunc: bool): (Mngr, int)
    requires forall id <- m.free :: ValidId(m, id)
  {
    if m.free != [] then
      var id := Top(m.free);
      assert id in m.free && ValidId(m, id);
      var slots := m.slots[id / 2 := NewSlot(hasFunc)];
      if !hasFunc then (m.(slots := slots), -1)
      else (Mngr(slots, m.free[..|m.free|-1]), id)
    else if !hasFunc then (m, -1)
    else (m.(slots := m.slots + [NewSlot(true)]), IdOf(|m.slots|))
  }

  /** unregisterSPForward */
  function Unregistered(m: Mngr, id: int): Mngr {
    if !ValidId(m, id) || m.slots[id / 2].isFree then m
    else if m.slots[id / 2].inExec then m.(slots := m.slots[id / 2 := m.slots[id / 2].(toDelete := true)])
    else Mngr(m.slots[id / 2 := m.slots[id / 2].(isFree := true)], m.free + [id])
  }

  /** The guards at the start of CSPForward::execute. */
  predicate Executes(m: Mngr, id: int, executable: bool)
    requires ValidId(m, id)
  {
    var s := m.slots[id / 2];
    !s.isFree && s.hasFunc && !s.toDelete && executable
  }

  function Entered(m: Mngr, id: int): Mngr
    requires ValidId(m, id)
  {
    m.(slots := m.slots[id / 2 := m.slots[id / 2].(inExec := true)])
  }

  /** What executeForwards does after the call: deferred deletion. */
  function AfterCall(m: Mngr, id: int): Mngr
    requires ValidId(m, id)
  {
    if m.slots[id / 2].toDelete
    then Unregistered(m.(slots := m.slots[id / 2 := m.slots[id / 2].(toDelete := false)]), id)
    else m
  }

  function Left(m: Mngr, id: int): Mngr
    requires ValidId(m, id)
  {
    AfterCall(m.(slots := m.slots[id / 2 := m.slots[id / 2].(inExec := false)]), id)
  }

  // ----- runs -----

  /** `Skip` is the execution of a forward whose plugin or function is not executable. */
  datatype Event = Register(hasFunc: bool) | Unregister(id: int) | Enter(id: int) | Skip(id: int) | Leave

  /** The manager together with what the clients know: the ids they hold, and the forwards
      that are executing, innermost last. */
  datatype World = World(m: Mngr, held: set<int>, running: seq<int>)

  /** Clients unregister and execute ids they hold, and execute no forward recursively. */
  predicate Allowed(w: World, e: Event) {
    match e
    case Register(_) => true
    case Unregister(id) => id in w.held
    case Enter(id) => id in w.held && id !in w.running
    case Skip(id) => id in w.held
    case Leave => w.running != []
  }

  predicate Distinct(ids: seq<int>) {
    forall i, j :: 0 <= i < j < |ids| ==> ids[i] != ids[j]
  }

  lemma Popped(ids: seq<int>)
    requires ids != [] && Distinct(ids)
    ensures Distinct(ids[..|ids|-1])
    ensures forall id :: id in ids[..|ids|-1] <==> id in ids && id != Top(ids)
  {
    assert ids == ids[..|ids|-1] + [Top(ids)];
  }

  ghost predicate Inv(w: World) {
    && (forall id <- w.m.free :: ValidId(w.m, id))
    && (forall id <- w.held :: ValidId(w.m, id))
    && Distinct(w.m.free) && Distinct(w.running)
    && (forall id <- w.running :: ValidId(w.m, id))
    && (forall k :: 0 <= k < |w.m.slots| ==> SlotInv(w, k))
  }

  /** Every slot is held by a client, or free, or about to be freed by a running execution. */
  ghost predicate SlotInv(w: World, k: nat)
    requires k < |w.m.slots|
  {
    var s, id := w.m.slots[k], IdOf(k);
    && (s.inExec <==> id in w.running)
    && (id in w.held ==> s.hasFunc && !s.isFree && !s.toDelete && id !in w.m.free)
    && (id in w.m.free ==> !s.inExec && !s.toDelete)
    && (id !in w.held && id !in w.m.free <==> s.toDelete)
    && (s.toDelete ==> s.inExec && s.hasFunc && !s.isFree)
    && (s.isFree ==> id in w.m.free)
  }

  const START := World(Mngr([], []), {}, [])

  function Next(w: World, e: Event): World
    requires (forall id <- w.m.free :: ValidId(w.m, id)) && (forall id <- w.running :: ValidId(w.m, id))
    requires (forall id <- w.held :: ValidId(w.m, id)) && Allowed(w, e)
  {
    match e
    case Register(hasFunc) =>
      var (m, id) := Registered(w.m, hasFunc);
      World(m, if id == -1 then w.held else w.held + {id}, w.running)
    case Unregister(id) => World(Unregistered(w.m, id), w.held - {id}, w.running)
    case Enter(id) => if Executes(w.m, id, true) then World(Entered(w.m, id), w.held, w.running + [id]) else w
    case Skip(_) => w
    case Leave =>
      var id := Top(w.running);
      World(Left(w.m, id), w.held, w.running[..|w.running|-1])
  }

  lemma RegisterKeeps(w: World, hasFunc: bool)
    requires Inv(w)
    ensures Inv(Next(w, Register(hasFunc)))
  {
    var w' := Next(w, Register(hasFunc));
    if w.m.free != [] {
      Popped(w.m.free);
      assert SlotInv(w, Top(w.m.free) / 2);
    } else {
      assert !ValidId(w.m, IdOf(|w.m.slots|));
    }
    assert |w'.m.slots| >= |w.m.slots|;
    forall id | id in w'.m.free
      ensures ValidId(w'.m, id)
    {
      assert id in w.m.free;
    }
    forall k | 0 <= k < |w'.m.slots|
      ensures SlotInv(w', k)
    {
      if k < |w.m.slots| { assert SlotInv(w, k); }
    }
  }

  lemma UnregisterKeeps(w: World, id: int)
    requires Inv(w) && id in w.held
    ensures Inv(Next(w, Unregister(id)))
  {
    var w' := Next(w, Unregister(id));
    assert SlotInv(w, id / 2);
    forall k | 0 <= k < |w'.m.slots|
      ensures SlotInv(w', k)
    {
      assert SlotInv(w, k);
    }
  }

  lemma EnterKeeps(w: World, id: int)
    requires Inv(w) && id in w.held && id !in w.running
    ensures Inv(Next(w, Enter(id)))
    ensures Next(w, Enter(id)).running == w.running + [id]
  {
    var w' := Next(w, Enter(id));
    assert SlotInv(w, id / 2);
    forall k | 0 <= k < |w'.m.slots|
      ensures SlotInv(w', k)
    {
      assert SlotInv(w, k);
    }
  }

  lemma LeaveKeeps(w: World)
    requires Inv(w) && w.running != []
    ensures Inv(Next(w, Leave))
  {
    var w' := Next(w, Leave);
    var id := Top(w.running);
    Popped(w.running);
    assert ValidId(w.m, id) && SlotInv(w, id / 2);
    forall i | i in w'.running
      ensures ValidId(w'.m, i)
    {
      assert i in w.running;
    }
    forall k | 0 <= k < |w'.m.slots|
      ensures SlotInv(w', k)
    {
      assert SlotInv(w, k);
    }
  }

  lemma NextKeeps(w: World, e: Event)
    requires Inv(w) && Allowed(w, e)
    ensures Inv(Next(w, e))
  {
    match e
    case Register(hasFunc) => RegisterKeeps(w, hasFunc);
    case Unregister(id) => UnregisterKeeps(w, id);
    case Enter(id) => EnterKeeps(w, id);
    case Skip(_) =>
    case Leave => LeaveKeeps(w);
  }

  ghost predicate AllowedAll(w: World, es: seq<Event>)
    requires Inv(w)
    decreases |es|
  {
    es == [] || (Allowed(w, es[0]) && (NextKeeps(w, es[0]); AllowedAll(Next(w, es[0]), es[1..])))
  }

  ghost function Play(w: World, es: seq<Event>): (r: World)
    requires Inv(w) && AllowedAll(w, es)
    ensures Inv(r)
    decreases |es|
  {
    if es == [] then w else NextKeeps(w, es[0]); Play(Next(w, es[0]), es[1..])
  }

  // ----- what the clients can rely on -----

  /** Over all runs of well-behaved clients, a registration succeeds exactly if the function
      is found, and gives an id that no client holds and that is not executing. */
  lemma RegisteredIdIsNew(es: seq<Event>, hasFunc: bool)
    requires Inv(START) && AllowedAll(START, es)
    ensures var w := Play(START, es); var (_, id) := Registered(w.m, hasFunc);
      && (id == -1 <==> !hasFunc)
      && id !in w.held && id !in w.running
  {
    var w := Play(START, es);
    if w.m.free != [] {
      assert SlotInv(w, Top(w.m.free) / 2);
    } else {
      assert !ValidId(w.m, IdOf(|w.m.slots|));
    }
    assert !ValidId(w.m, -1);
  }

  /** An id that was unregistered during its own execution stays off the stack until that
      execution returns, and then is the next one to be reused. */
  lemma RecycledAfterReturn(w: World, id: int)
    requires Inv(w) && id in w.running && id !in w.held
    ensures id !in w.m.free
    ensures id == Top(w.running) ==> Registered(Next(w, Leave).m, true).1 == id
  {
    assert ValidId(w.m, id) && SlotInv(w, id / 2);
    if id == Top(w.running) {
      LeaveKeeps(w);
    }
  }

  /** No slot is lost: outside all executions every id is held or free. */
  lemma NothingLost(w: World, id: int)
    requires Inv(w) && w.running == [] && ValidId(w.m, id)
    ensures id in w.held <==> id !in w.m.free
  {
    assert SlotInv(w, id / 2);
  }

  /** The guard against recursion is exact: whenever a forward that is executing is executed
      again, it can be unregistered and its id given away before the outer execution ends. */
  lemma RecursionRecyclesEarly(w: World, id: int)
    requires Inv(w) && id in w.held && id in w.running
    ensures var m := Unregistered(Left(Entered(w.m, id), id), id);
      (forall i <- m.free :: ValidId(m, i)) && Registered(m, true).1 == id
  {
    assert ValidId(w.m, id) && SlotInv(w, id / 2);
    var m := Unregistered(Left(Entered(w.m, id), id), id);
    assert m.free == w.m.free + [id];
    assert forall i <- m.free :: ValidId(m, i);
  }

  /** Such a state comes about: the function is registered and executed. */
  lemma RecursionReached()
    ensures var es := [Register(true), Enter(1)];
      && Inv(START) && AllowedAll(START, es)
      && var w := Play(START, es); Inv(w) && 1 in w.held && 1 in w.running
  {
    var es := [Register(true), Enter(1)];
    var w := Next(START, es[0]);
    NextKeeps(START, es[0]);
    assert IdOf(0) == 1 && w.held == {1};
    assert es[1..] == [Enter(1)] && es[1..][1..] == [];
    NextKeeps(w, es[1]);
    assert Play(START, es) == Play(w, es[1..]) == Next(w, es[1]);
  }

  /** A client that unregisters an id again after it has been freed does no harm exactly if the slot
      still knows that it is free, as it does right after the first time; a registration that fails
      in the slot makes it forget. */
  lemma UnregisteredAgain(m: Mngr, id: int)
    requires ValidId(m, id) && !m.slots[id / 2].inExec
    ensures var once := Unregistered(m, id); ValidId(once, id) && Unregistered(once, id) == once
    ensures id in m.free ==> (Unregistered(m, id) == m <==> m.slots[id / 2].isFree)
    ensures !m.slots[id / 2].isFree ==> Unregistered(m, id).free == m.free + [id]
    ensures m.free != [] && Top(m.free) == id ==>
      (forall i <- m.free :: ValidId(m, i)) ==> !Registered(m, false).0.slots[id / 2].isFree
  {
    if !m.slots[id / 2].isFree { assert |m.free + [id]| == |m.free| + 1; }
  }

  /** The id is then given away twice. */
  lemma GivenAwayTwice()
    ensures var m0 := Unregistered(Registered(START.m, true).0, 1);
      && m0.free == [1] && ValidId(m0, 1)
      && var m := Unregistered(Registered(m0, false).0, 1);
      && m.free == [1, 1] && ValidId(m, 1)
      && var (m1, id1) := Registered(m, true);
      && m1.free == [1] && ValidId(m1, 1) && id1 == 1 && Registered(m1, true).1 == 1
  {
    var m0 := Unregistered(Registered(START.m, true).0, 1);
    assert m0.free == [1];
    var m := Unregistered(Registered(m0, false).0, 1);
    assert m.free == [1, 1];
  }

  // ----- the manager -----

  /** What a client does, directly or from inside a forward. */
  datatype Op = RegisterOp(hasFunc: bool) | UnregisterOp(id: int) | ExecuteOp(id: int, executable: bool, body: seq<Op>)

  function Events(ops: seq<Op>): seq<Event> {
    if ops == [] then [] else OpEvents(ops[0]) + Events(ops[1..])
  }

  lemma {:induction false} PlayAppend(w: World, a: seq<Event>, b: seq<Event>)
    requires Inv(w) && AllowedAll(w, a + b)
    ensures AllowedAll(w, a) && AllowedAll(Play(w, a), b) && Play(w, a + b) == Play(Play(w, a), b)
    decreases |a|
  {
    if a == [] {
      assert a + b == b;
    } else {
      NextKeeps(w, a[0]);
      assert (a + b)[1..] == a[1..] + b;
      PlayAppend(Next(w, a[0]), a[1..], b);
    }
  }

  function OpEvents(op: Op): seq<Event> {
    match op
    case RegisterOp(hasFunc) => [Register(hasFunc)]
    case UnregisterOp(id) => [Unregister(id)]
    case ExecuteOp(id, executable, body) => if executable then [Enter(id)] + (Events(body) + [Leave]) else [Skip(id)]
  }

  /** Client operations leave the executions that are going on as they are. */
  lemma {:induction false} OpsBalanced(w: World, ops: seq<Op>)
    requires Inv(w) && AllowedAll(w, Events(ops))
    ensures Play(w, Events(ops)).running == w.running
    decreases ops, 1
  {
    if ops != [] {
      PlayAppend(w, OpEvents(ops[0]), Events(ops[1..]));
      OpBalanced(w, ops[0]);
      OpsBalanced(Play(w, OpEvents(ops[0])), ops[1..]);
    }
  }

  lemma {:induction false} OpBalanced(w: World, op: Op)
    requires Inv(w) && AllowedAll(w, OpEvents(op))
    ensures Play(w, OpEvents(op)).running == w.running
    decreases op, 0
  {
    match op
    case ExecuteOp(id, true, body) =>
      ExecutionPlays(w, id, body);
    case _ => PlayOne(w, op);
  }

  /** An execution enters, plays its body, and leaves. */
  lemma {:induction false} ExecutionPlays(w: World, id: int, body: seq<Op>)
    requires Inv(w) && AllowedAll(w, [Enter(id)] + (Events(body) + [Leave]))
    ensures Allowed(w, Enter(id)) && Inv(Next(w, Enter(id))) && AllowedAll(Next(w, Enter(id)), Events(body))
    ensures var inside := Play(Next(w, Enter(id)), Events(body));
      && inside.running == w.running + [id]
      && Play(w, [Enter(id)] + (Events(body) + [Leave])) == Next(inside, Leave)
      && Next(inside, Leave).running == w.running
    decreases body, 2
  {
    var es := Events(body);
    assert ([Enter(id)] + (es + [Leave]))[1..] == es + [Leave];
    EnterKeeps(w, id);
    var first := Next(w, Enter(id));
    PlayAppend(first, es, [Leave]);
    OpsBalanced(first, body);
    var inside := Play(first, es);
    assert Play(inside, [Leave]) == Play(Next(inside, Leave), []);
    assert (w.running + [id])[..|w.running|] == w.running;
  }

  class ForwardMngr {
    var spForwards: seq<Slot>
    var freeSPForwards: seq<int>

    function State(): Mngr
      reads this
    {
      Mngr(spForwards, freeSPForwards)
    }

    constructor ()
      ensures State() == START.m
    {
      spForwards, freeSPForwards := [], [];
    }

    method RegisterSPForward(hasFunc: bool) returns (retVal: int)
      requires forall id <- freeSPForwards :: ValidId(State(), id)
      modifies this
      ensures (State(), retVal) == Registered(old(State()), hasFunc)
    {
      retVal := -1;
      if freeSPForwards != [] {
        retVal := Top(freeSPForwards);
        spForwards := spForwards[retVal / 2 := NewSlot(hasFunc)];
        if !hasFunc { return -1; }
        freeSPForwards := freeSPForwards[..|freeSPForwards|-1];
      } else {
        retVal := IdOf(|spForwards|);
        if !hasFunc { return -1; }
        spForwards := spForwards + [NewSlot(hasFunc)];
      }
    }

    method UnregisterSPForward(id: int)
      modifies this
      ensures State() == Unregistered(old(State()), id)
    {
      if !ValidId(State(), id) || spForwards[id / 2].isFree { return; }
      if spForwards[id / 2].inExec {
        spForwards := spForwards[id / 2 := spForwards[id / 2].(toDelete := true)];
      } else {
        spForwards := spForwards[id / 2 := spForwards[id / 2].(isFree := true)];
        freeSPForwards := freeSPForwards + [id];
      }
    }

    /** executeForwards of a single-plugin forward that runs `body`. */
    method ExecuteForwards(id: int, executable: bool, body: seq<Op>, ghost w: World)
      requires w.m == State() && Inv(w) && ValidId(State(), id)
      requires AllowedAll(w, OpEvents(ExecuteOp(id, executable, body)))
      modifies this
      ensures State() == Play(w, OpEvents(ExecuteOp(id, executable, body))).m
      decreases body, 1
    {
      hide Play, AllowedAll;
      assert SlotInv(w, id / 2);
      if executable {
        ExecutionPlays(w, id, body);
        EnterKeeps(w, id);
      } else {
        PlayOne(w, ExecuteOp(id, executable, body));
      }
      if Executes(State(), id, executable) {
        spForwards := spForwards[id / 2 := spForwards[id / 2].(inExec := true)];
        Perform(body, Next(w, Enter(id)));
        spForwards := spForwards[id / 2 := spForwards[id / 2].(inExec := false)];
      }
      if spForwards[id / 2].toDelete {
        spForwards := spForwards[id / 2 := spForwards[id / 2].(toDelete := false)];
        UnregisterSPForward(id);
      }
    }

    /** A sequence of client operations. */
    method Perform(ops: seq<Op>, ghost w: World)
      requires w.m == State() && Inv(w) && AllowedAll(w, Events(ops))
      modifies this
      ensures State() == Play(w, Events(ops)).m
      decreases ops, 0
    {
      if ops != [] {
        PlayAppend(w, OpEvents(ops[0]), Events(ops[1..]));
        PlayOne(w, ops[0]);
        match ops[0] {
          case RegisterOp(hasFunc) => var _ := RegisterSPForward(hasFunc);
          case UnregisterOp(id) => UnregisterSPForward(id);
          case ExecuteOp(id, executable, body) => ExecuteForwards(id, executable, body, w);
        }
        Perform(ops[1..], Play(w, OpEvents(ops[0])));
      }
    }
  }

  lemma PlayNothing(w: World)
    requires Inv(w)
    ensures AllowedAll(w, []) && Play(w, []) == w
  {
  }

  lemma PlayOne(w: World, op: Op)
    requires Inv(w) && AllowedAll(w, OpEvents(op))
    ensures op.ExecuteOp? ==> op.id in w.held && ValidId(w.m, op.id)
    ensures !(op.ExecuteOp? && op.executable) ==>
      Allowed(w, OpEvents(op)[0]) && Play(w, OpEvents(op)) == Next(w, OpEvents(op)[0])
  {
    assert Allowed(w, OpEvents(op)[0]);
    if !(op.ExecuteOp? && op.executable) {
      NextKeeps(w, OpEvents(op)[0]);
      PlayNothing(Next(w, OpEvents(op)[0]));
    }
  }
}

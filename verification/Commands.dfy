/**
  The lists of registered commands and the cursor that is remembered between two requests for a
  command by number (CCmd.cpp, class `CmdMngr`).
*/
module Commands {

  type byte = x: int | 0 <= x < 256

  /** A mask of rights, as the set of its bits. */
  type Flags = set<nat>

  // ----- the order of commands -----

  /** `strcmp`: negative, zero or positive. */
  function Compare(s: seq<byte>, t: seq<byte>): int {
    if s == [] && t == [] then 0
    else if s == [] then -1
    else if t == [] then 1
    else if s[0] != t[0] then (s[0] as int) - t[0]
    else Compare(s[1..], t[1..])
  }

  lemma {:induction false} CompareTransitive(s: seq<byte>, t: seq<byte>, u: seq<byte>)
    ensures Compare(s, t) <= 0 && Compare(t, u) <= 0 ==> Compare(s, u) <= 0
    ensures Compare(s, t) < 0 && Compare(t, u) <= 0 ==> Compare(s, u) < 0
    ensures Compare(s, t) <= 0 && Compare(t, u) < 0 ==> Compare(s, u) < 0
  {
    if s != [] && t != [] && u != [] {
      CompareTransitive(s[1..], t[1..], u[1..]);
    }
  }

  lemma {:induction false} CompareSymmetric(s: seq<byte>, t: seq<byte>)
    ensures Compare(s, t) == -Compare(t, s)
    ensures Compare(s, t) == 0 <==> s == t
  {
    if s != [] && t != [] {
      CompareSymmetric(s[1..], t[1..]);
      assert s == [s[0]] + s[1..] && t == [t[0]] + t[1..];
    }
  }

  class Command {
    const command: seq<byte>
    const argument: seq<byte>
    const flags: Flags
    const listable: bool
    const plugin: nat
    const id: int

    constructor (command: seq<byte>, argument: seq<byte>, flags: Flags, listable: bool, plugin: nat, id: int)
      ensures this.command == command && this.argument == argument && this.flags == flags
      ensures this.listable == listable && this.plugin == plugin && this.id == id
    {
      this.command, this.argument, this.flags := command, argument, flags;
      this.listable, this.plugin, this.id := listable, plugin, id;
    }

    predicate GotAccess(access: Flags) { flags == {} || flags * access != {} }
  }

  /** A command without rights is for everyone, any other one for whoever has one of its rights. */
  lemma AccessMeans(c: Command, access: Flags)
    ensures c.GotAccess(access) <==> (forall f :: f !in c.flags) || exists f :: f in c.flags && f in access
  {
    if c.flags * access != {} {
      var f :| f in c.flags * access;
      assert f in c.flags && f in access;
    }
    if f :| f in c.flags && f in access { assert f in c.flags * access; }
  }

  /** `c` belongs before `d` in a sorted list. */
  predicate Before(c: Command, d: Command) {
    var i := Compare(c.command, d.command);
    i < 0 || (i == 0 && Compare(c.argument, d.argument) < 0)
  }

  ghost predicate Sorted(cmds: seq<Command>) {
    forall i, j :: 0 <= i < j < |cmds| ==> !Before(cmds[j], cmds[i])
  }

  lemma BeforeTransitive(c: Command, d: Command, e: Command)
    ensures Before(c, d) && !Before(e, d) ==> Before(c, e)
    ensures Before(c, d) ==> !Before(d, c)
  {
    CompareTransitive(c.command, d.command, e.command);
    CompareTransitive(c.argument, d.argument, e.argument);
    CompareSymmetric(c.command, d.command);
    CompareSymmetric(d.command, e.command);
    CompareSymmetric(c.command, e.command);
    CompareSymmetric(c.argument, d.argument);
    CompareSymmetric(d.argument, e.argument);
    CompareSymmetric(c.argument, e.argument);
  }

  // ----- enumeration -----

  /** What can be listed, given the plugins that are running. */
  predicate Eligible(c: Command, access: Flags, running: set<nat>) {
    c.GotAccess(access) && c.plugin in running && c.listable
  }

  function Select(cmds: seq<Command>, access: Flags, running: set<nat>): seq<Command> {
    if cmds == [] then []
    else (if Eligible(cmds[0], access, running) then [cmds[0]] else []) + Select(cmds[1..], access, running)
  }

  lemma {:induction false} SelectConcat(a: seq<Command>, b: seq<Command>, access: Flags, running: set<nat>)
    ensures Select(a + b, access, running) == Select(a, access, running) + Select(b, access, running)
  {
    hide Eligible, Select;
    if a == [] {
      assert a + b == b;
      SelectNone(access, running);
    } else {
      assert (a + b)[1..] == a[1..] + b;
      SelectHead(a + b, access, running);
      SelectHead(a, access, running);
      SelectConcat(a[1..], b, access, running);
    }
  }

  lemma SelectSplit(cmds: seq<Command>, n: nat, access: Flags, running: set<nat>)
    requires n <= |cmds|
    ensures Select(cmds, access, running) == Select(cmds[..n], access, running) + Select(cmds[n..], access, running)
  {
    assert cmds == cmds[..n] + cmds[n..];
    SelectConcat(cmds[..n], cmds[n..], access, running);
  }

  lemma SelectHead(cmds: seq<Command>, access: Flags, running: set<nat>)
    requires cmds != []
    ensures Select(cmds, access, running) ==
      (if Eligible(cmds[0], access, running) then [cmds[0]] else []) + Select(cmds[1..], access, running)
  {
  }

  lemma SelectNone(access: Flags, running: set<nat>)
    ensures Select([], access, running) == []
  {
  }

  /** The command with a number, as a scan from the beginning finds it. */
  function Nth(selected: seq<Command>, id: nat): (c: Command?) {
    if id < |selected| then selected[id] else null
  }

  class CmdLink {
    const cmd: Command
    var next: CmdLink?

    constructor (cmd: Command)
      ensures this.cmd == cmd && next == null
    {
      this.cmd, next := cmd, null;
    }
  }

  // ----- linked lists -----

  ghost predicate List(head: CmdLink?, links: seq<CmdLink>)
    reads links
  {
    && head == (if links == [] then null else links[0])
    && (forall i :: 0 <= i < |links| ==> Next(links, i))
    && (forall i, j :: 0 <= i < j < |links| ==> links[i] != links[j])
  }

  ghost predicate Next(links: seq<CmdLink>, i: nat)
    requires i < |links|
    reads links
  {
    links[i].next == if i + 1 < |links| then links[i+1] else null
  }

  ghost function Cmds(links: seq<CmdLink>): (cmds: seq<Command>)
    ensures |cmds| == |links|
  {
    seq(|links|, i requires 0 <= i < |links| => links[i].cmd)
  }

  /** Where a command goes in a sorted list: before the first one that it belongs before. */
  ghost predicate Place(cmds: seq<Command>, c: Command, p: nat) {
    && p <= |cmds|
    && (forall i :: 0 <= i < p ==> !Before(c, cmds[i]))
    && (p < |cmds| ==> Before(c, cmds[p]))
  }

  lemma InsertKeepsSorted(cmds: seq<Command>, c: Command, p: nat)
    requires Sorted(cmds) && Place(cmds, c, p)
    ensures Sorted(cmds[..p] + [c] + cmds[p..])
  {
    var now := cmds[..p] + [c] + cmds[p..];
    forall i, j | 0 <= i < j < |now| ensures !Before(now[j], now[i]) {
      if i == p {
        var d := cmds[j-1];
        assert now[j] == d;
        BeforeTransitive(c, cmds[p], d);
        BeforeTransitive(c, d, d);
      }
    }
  }

  /** Puts a new link in a list: in its place, or at the end. */
  method SetCmdLink(head: CmdLink?, ghost links: seq<CmdLink>, c: Command, sorted: bool)
    returns (first: CmdLink, ghost now: seq<CmdLink>, ghost p: nat)
    requires List(head, links)
    modifies links
    ensures p <= |links| && |now| == |links| + 1 && fresh(now[p])
    ensures now == links[..p] + [now[p]] + links[p..] && List(first, now)
    ensures now[p].cmd == c && Cmds(now) == Cmds(links)[..p] + [c] + Cmds(links)[p..]
    ensures if sorted then Place(Cmds(links), c, p) else p == |links|
  {
    var np := new CmdLink(c);
    var prev: CmdLink? := null;
    var cur := head;
    p := 0;
    while cur != null
      invariant p <= |links| && List(head, links)
      invariant cur == if p < |links| then links[p] else null
      invariant prev == if p > 0 then links[p-1] else null
      invariant sorted ==> forall i :: 0 <= i < p ==> !Before(c, Cmds(links)[i])
      decreases |links| - p
    {
      if sorted {
        var i := Compare(c.command, cur.cmd.command);
        if i < 0 || (i == 0 && Compare(c.argument, cur.cmd.argument) < 0) {
          break;
        }
      }
      assert Next(links, p);
      prev, cur := cur, cur.next;
      p := p + 1;
    }
    now := links[..p] + [np] + links[p..];
    np.next := cur;
    if prev == null {
      first := np;
    } else {
      prev.next := np;
      first := head;
    }
    forall i | 0 <= i < |now| ensures Next(now, i) {
      assert i < p ==> old(Next(links, i));
      assert i > p ==> old(Next(links, i - 1));
    }
  }

  // ----- the remembered cursor -----

  /** What is left of a selection behind its first `n` commands. */
  function Drop(selected: seq<Command>, n: nat): seq<Command> {
    if n <= |selected| then selected[n..] else []
  }

  lemma SelectStep(cmds: seq<Command>, pos: nat, k: nat, access: Flags, running: set<nat>)
    requires pos < |cmds|
    ensures var c := cmds[pos]; var here := Select(cmds[pos..], access, running);
      var next := Select(cmds[pos+1..], access, running);
      if !Eligible(c, access, running) then here == next
      else here == [c] + next && (k > 0 ==> Drop(here, k) == Drop(next, k - 1))
  {
    assert cmds[pos..][0] == cmds[pos] && cmds[pos..][1..] == cmds[pos+1..];
  }

  lemma DropDrop(selected: seq<Command>, a: nat, b: nat)
    requires a <= b
    ensures Drop(Drop(selected, a), b - a) == Drop(selected, b)
  {
  }

  /** Where the scan stops. */
  lemma StopsHere(all: seq<Command>, id: nat, here: seq<Command>, k: nat)
    requires Drop(here, k) == Drop(all, id)
    ensures here == [] ==> Nth(all, id) == null && here == Drop(all, id)
    ensures k == 0 && here != [] ==> Nth(all, id) == here[0] && here == Drop(all, id)
  {
  }

  /** The node number `i` of a list, and its successor. */
  lemma NodeAt(head: CmdLink?, list: seq<CmdLink>, i: nat)
    requires List(head, list) && i < |list|
    ensures list[i].next == if i + 1 < |list| then list[i+1] else null
    ensures head == list[0] && Cmds(list)[i] == list[i].cmd
  {
    assert Next(list, i);
  }

  /** The cursor `ptr` is at number `pos` of a list, or behind its end, and what is left there of the
      selection is what is left behind the first `id` commands of a fresh scan. */
  ghost predicate StandsAt(ptr: CmdLink?, pos: nat, id: int, list: seq<CmdLink>, access: Flags, running: set<nat>) {
    && id >= 0 && pos <= |list|
    && ptr == (if pos < |list| then list[pos] else null)
    && Select(Cmds(list)[pos..], access, running) == Drop(Select(Cmds(list), access, running), id)
  }

  // ----- the cursor and a registration -----

  /** What it means for the cursor to agree: all requests from the remembered number on are
      answered as by a fresh scan. */
  lemma AgreesMeans(rest: seq<Command>, all: seq<Command>, id: nat)
    ensures rest == Drop(all, id) <==> forall k: nat :: Nth(rest, k) == Nth(all, id + k)
  {
    var dropped := Drop(all, id);
    if forall k: nat :: Nth(rest, k) == Nth(all, id + k) {
      assert Nth(rest, |rest|) == Nth(all, id + |rest|);
      assert Nth(rest, |dropped|) == Nth(all, id + |dropped|);
      assert |rest| == |dropped|;
      forall k | 0 <= k < |rest| ensures rest[k] == dropped[k] {
        assert Nth(rest, k) == Nth(all, id + k);
      }
    }
  }

  /** The same by numbers: `id` is that of the commands before, or none are left. */
  lemma LeftBehind(cmds: seq<Command>, n: nat, id: nat, access: Flags, running: set<nat>)
    requires n <= |cmds|
    ensures var before, all := |Select(cmds[..n], access, running)|, |Select(cmds, access, running)|;
      && before <= all
      && (Select(cmds[n..], access, running) == Drop(Select(cmds, access, running), id)
          <==> id == before || (before == all && id >= before))
  {
    hide Select;
    SelectSplit(cmds, n, access, running);
    var front, rest := Select(cmds[..n], access, running), Select(cmds[n..], access, running);
    if rest == Drop(front + rest, id) && rest != [] {
      assert |rest| == |front| + |rest| - id;
    }
  }

  lemma SelectInserted(cmds: seq<Command>, c: Command, p: nat, pos: nat, access: Flags, running: set<nat>)
    requires p <= |cmds| && pos <= |cmds|
    ensures var now := cmds[..p] + [c] + cmds[p..];
      |Select(now[..if p <= pos then pos + 1 else pos], access, running)|
      == |Select(cmds[..pos], access, running)| + if p <= pos && Eligible(c, access, running) then 1 else 0
  {
    hide Eligible;
    var now := cmds[..p] + [c] + cmds[p..];
    if p > pos {
      assert now[..pos] == cmds[..pos];
    } else {
      assert now[..pos+1] == cmds[..p] + [c] + cmds[p..pos];
      assert cmds[..pos] == cmds[..p] + cmds[p..pos];
      SelectConcat(cmds[..p], cmds[p..pos], access, running);
      SelectConcat(cmds[..p] + [c], cmds[p..pos], access, running);
      SelectConcat(cmds[..p], [c], access, running);
      assert Select([c], access, running) == if Eligible(c, access, running) then [c] else [];
    }
  }

  /** The cursor, at number `pos` of a list and remembering `id`, stays at its command when another
      becomes number `p`.  It goes on agreeing exactly if that one cannot be listed, or comes
      behind the cursor while `id` is at most the size of the selection, or before the cursor while
      `id` is larger. */
  lemma AgreesAfterInsert(cmds: seq<Command>, c: Command, p: nat, pos: nat, id: nat, access: Flags, running: set<nat>)
    requires p <= |cmds| && pos <= |cmds|
    requires Select(cmds[pos..], access, running) == Drop(Select(cmds, access, running), id)
    ensures var now := cmds[..p] + [c] + cmds[p..];
      Select(now[if p <= pos then pos + 1 else pos..], access, running) == Drop(Select(now, access, running), id)
      <==> !Eligible(c, access, running) || (p > pos <==> id <= |Select(cmds, access, running)|)
  {
    hide Select, Eligible, Drop;
    var now := cmds[..p] + [c] + cmds[p..];
    var at := if p <= pos then pos + 1 else pos;
    SelectInserted(cmds, c, p, pos, access, running);
    SelectInserted(cmds, c, p, |cmds|, access, running);
    assert now[..|now|] == now && cmds[..|cmds|] == cmds;
    LeftBehind(cmds, pos, id, access, running);
    LeftBehind(now, at, id, access, running);
  }

  /** The same for the cursor itself. */
  lemma CursorAfterInsert(list: seq<CmdLink>, now: seq<CmdLink>, c: Command, p: nat, ptr: CmdLink?, pos: nat, id: int,
                          access: Flags, running: set<nat>)
    requires p <= |list| && |now| == |list| + 1 && now == list[..p] + [now[p]] + list[p..]
    requires Cmds(now) == Cmds(list)[..p] + [c] + Cmds(list)[p..] && StandsAt(ptr, pos, id, list, access, running)
    ensures StandsAt(ptr, if p <= pos then pos + 1 else pos, id, now, access, running)
      <==> !Eligible(c, access, running) || (p > pos <==> id <= |Select(Cmds(list), access, running)|)
  {
    hide Cmds, Select, Eligible, Drop;
    AgreesAfterInsert(Cmds(list), c, p, pos, id, access, running);
  }

  class CmdMngr {
    /** The sorted lists by type, and the plugins that can be executed now. */
    var heads: seq<CmdLink?>
    var running: set<nat>
    var bufCmdPtr: CmdLink?
    var bufCmdId: int
    var bufCmdType: int
    var bufCmdAccess: Flags
    ghost var links: seq<seq<CmdLink>>
    ghost var repr: set<CmdLink>
    ghost var pos: nat

    constructor ()
      ensures Valid() && Agrees() && links == [[], [], []] && running == {} && repr == {}
    {
      heads, running := [null, null, null], {};
      bufCmdPtr, bufCmdId, bufCmdType, bufCmdAccess := null, -1, -1, {};
      links, repr, pos := [[], [], []], {}, 0;
    }

    ghost predicate Owned(k: nat)
      requires k < |heads| && k < |links|
      reads `heads, `links, `repr, repr
    {
      && (forall i :: 0 <= i < |links[k]| ==> links[k][i] in repr)
      && List(heads[k], links[k])
      && Sorted(Cmds(links[k]))
    }

    ghost predicate Valid()
      reads `heads, `links, `repr, repr
    {
      && |heads| == 3 && |links| == 3
      && (forall k :: 0 <= k < 3 ==> Owned(k))
      && (forall k, l, x :: 0 <= k < l < 3 && x in links[k] ==> x !in links[l])
    }

    /** The answer of a fresh scan. */
    ghost function Fresh(id: nat, kind: nat, access: Flags): Command?
      requires kind < |links|
      reads `links, `running
    {
      Nth(Select(Cmds(links[kind]), access, running), id)
    }

    /** The cursor stands where a fresh scan for the remembered number would stop. */
    ghost predicate Agrees()
      reads this
    {
      bufCmdType == -1 || (0 <= bufCmdType < |links| && StandsAt(bufCmdPtr, pos, bufCmdId, links[bufCmdType], bufCmdAccess, running))
    }

    method ClearBufferedInfo()
      modifies `bufCmdId, `bufCmdType, `bufCmdAccess
      ensures Agrees()
    {
      bufCmdId, bufCmdType, bufCmdAccess := -1, -1, {};
    }

    /** A command by its number among the eligible ones, or by its own negative number. */
    method GetCmd(id: int, kind: int, access: Flags) returns (cmd: Command?)
      requires Valid() && 0 <= kind < 3 && Agrees()
      modifies `bufCmdPtr, `bufCmdId, `bufCmdType, `bufCmdAccess, `pos
      ensures Valid() && Agrees()
      ensures id >= 0 ==> cmd == Fresh(id, kind, access)
      ensures id < 0 && cmd != null ==> cmd in Cmds(links[kind]) && cmd.id == id
      ensures id < 0 && cmd == null ==> forall c :: c in Cmds(links[kind]) ==> c.id != id
    {
      hide Select, Drop, Nth, Sorted, Next, Cmds;
      if id < 0 {
        cmd := FindById(id, kind);
        return;
      }
      var rest := id;
      if id < bufCmdId || access != bufCmdAccess || kind != bufCmdType {
        assert Owned(kind);
        bufCmdPtr := heads[kind];
        bufCmdAccess := access;
        bufCmdType := kind;
        bufCmdId := id;
        pos := 0;
        assert Cmds(links[kind])[0..] == Cmds(links[kind]);
      } else {
        rest := id - bufCmdId;
        DropDrop(Select(Cmds(links[kind]), access, running), bufCmdId, id);
        bufCmdId := id;
      }
      cmd := Advance(rest);
    }

    /** Moves the cursor on to the command that is `rest` eligible ones away. */
    method Advance(rest: nat) returns (cmd: Command?)
      requires Valid() && 0 <= bufCmdType < 3 && bufCmdId >= 0 && pos <= |links[bufCmdType]|
      requires bufCmdPtr == if pos < |links[bufCmdType]| then links[bufCmdType][pos] else null
      requires var cmds := Cmds(links[bufCmdType]);
        Drop(Select(cmds[pos..], bufCmdAccess, running), rest) == Drop(Select(cmds, bufCmdAccess, running), bufCmdId)
      modifies `bufCmdPtr, `pos
      ensures Valid() && Agrees()
      ensures cmd == Fresh(bufCmdId, bufCmdType, bufCmdAccess)
    {
      hide Select, Drop, Nth, List, Sorted, Next, Cmds, Eligible;
      ghost var list := links[bufCmdType];
      ghost var all := Select(Cmds(list), bufCmdAccess, running);
      var k := rest;
      assert Owned(bufCmdType);
      while bufCmdPtr != null
        invariant pos <= |list|
        invariant bufCmdPtr == if pos < |list| then list[pos] else null
        invariant Drop(Select(Cmds(list)[pos..], bufCmdAccess, running), k) == Drop(all, bufCmdId)
        decreases |list| - pos
      {
        SelectStep(Cmds(list), pos, k, bufCmdAccess, running);
        StopsHere(all, bufCmdId, Select(Cmds(list)[pos..], bufCmdAccess, running), k);
        NodeAt(heads[bufCmdType], list, pos);
        var c := bufCmdPtr.cmd;
        if Eligible(c, bufCmdAccess, running) {
          if k == 0 {
            return c;
          }
          k := k - 1;
        }
        bufCmdPtr := bufCmdPtr.next;
        pos := pos + 1;
      }
      assert Cmds(list)[pos..] == [];
      SelectNone(bufCmdAccess, running);
      StopsHere(all, bufCmdId, [], k);
      cmd := null;
    }

    method FindById(id: int, kind: nat) returns (cmd: Command?)
      requires Valid() && kind < 3
      ensures cmd != null ==> cmd in Cmds(links[kind]) && cmd.id == id
      ensures cmd == null ==> forall c :: c in Cmds(links[kind]) ==> c.id != id
    {
      ghost var list := links[kind];
      var a := heads[kind];
      ghost var i := 0;
      assert Owned(kind);
      while a != null
        invariant i <= |list| && a == if i < |list| then list[i] else null
        invariant forall j :: 0 <= j < i ==> Cmds(list)[j].id != id
        decreases |list| - i
      {
        if a.cmd.id == id {
          assert Cmds(list)[i] == a.cmd;
          return a.cmd;
        }
        assert Next(list, i);
        a := a.next;
        i := i + 1;
      }
      cmd := null;
    }

    method GetCmdNum(kind: nat, access: Flags) returns (num: nat)
      requires Valid() && kind < 3
      ensures num == |Select(Cmds(links[kind]), access, running)|
    {
      ghost var list := links[kind];
      var a := heads[kind];
      ghost var i := 0;
      num := 0;
      assert Owned(kind);
      assert Cmds(list)[0..] == Cmds(list);
      while a != null
        invariant i <= |list| && a == if i < |list| then list[i] else null
        invariant num + |Select(Cmds(list)[i..], access, running)| == |Select(Cmds(list), access, running)|
        decreases |list| - i
      {
        SelectStep(Cmds(list), i, 0, access, running);
        if Eligible(a.cmd, access, running) {
          num := num + 1;
        }
        assert Next(list, i);
        a := a.next;
        i := i + 1;
      }
    }

    /** Any sequence of requests, for any lists and rights in any order: every one of them gets
        the answer of a fresh scan. */
    method Answer(requests: seq<Request>) returns (answers: seq<Command?>)
      requires Valid() && Agrees()
      requires forall i :: 0 <= i < |requests| ==> requests[i].kind < 3
      modifies `bufCmdPtr, `bufCmdId, `bufCmdType, `bufCmdAccess, `pos
      ensures Valid() && Agrees() && |answers| == |requests|
      ensures forall i :: 0 <= i < |requests| ==>
        answers[i] == Fresh(requests[i].id, requests[i].kind, requests[i].access)
    {
      hide Select, Nth, Cmds, Owned;
      answers := [];
      while |answers| < |requests|
        invariant |answers| <= |requests| && Valid() && Agrees()
        invariant forall i :: 0 <= i < |answers| ==>
          answers[i] == Fresh(requests[i].id, requests[i].kind, requests[i].access)
      {
        var r := requests[|answers|];
        var cmd := GetCmd(r.id, r.kind, r.access);
        answers := answers + [cmd];
      }
    }

    /** What the change of one list leaves of the others. */
    twostate lemma OthersOwned(kind: nat)
      requires old(Valid()) && kind < 3 && |heads| == |links| == 3 && old(repr) <= repr
      requires forall k :: 0 <= k < 3 && k != kind ==> heads[k] == old(heads[k]) && links[k] == old(links[k])
      requires forall x :: x in old(repr) && x !in old(links[kind]) ==> unchanged(x)
      ensures forall k :: 0 <= k < 3 && k != kind ==> Owned(k)
      ensures forall k, x :: 0 <= k < 3 && k != kind && x in links[k] ==> x in old(repr)
    {
      hide Sorted, Cmds;
      forall k | 0 <= k < 3 && k != kind ensures Owned(k) && forall x :: x in links[k] ==> x in old(repr) {
        assert old(Owned(k));
        forall i | 0 <= i < |links[k]| ensures Next(links[k], i) {
          assert links[k][i] in links[k];
          assert old(Next(links[k], i));
        }
      }
    }

    /** Puts a command in one of the sorted lists; the cursor is left at its link. */
    method Insert(kind: nat, c: Command) returns (ghost p: nat)
      requires Valid() && kind < 3
      modifies `heads, `links, `repr, `pos, repr
      ensures Valid() && fresh(repr - old(repr))
      ensures forall k :: 0 <= k < 3 && k != kind ==> links[k] == old(links[k])
      ensures Place(Cmds(old(links[kind])), c, p)
      ensures Cmds(links[kind]) == Cmds(old(links[kind]))[..p] + [c] + Cmds(old(links[kind]))[p..]
      ensures old(Agrees()) ==> (Agrees() <==>
        || kind != bufCmdType || !Eligible(c, bufCmdAccess, running)
        || (p > old(pos) <==> bufCmdId <= |Select(Cmds(old(links[kind])), bufCmdAccess, running)|))
    {
      hide Place, Cmds, Sorted, Select, Eligible, Drop, StandsAt;
      assert Owned(kind);
      ghost var list := links[kind];
      var first;
      ghost var now;
      first, now, p := SetCmdLink(heads[kind], list, c, true);
      InsertKeepsSorted(Cmds(list), c, p);
      heads := heads[kind := first];
      links := links[kind := now];
      repr := repr + {now[p]};
      if kind == bufCmdType && p <= pos { pos := pos + 1; }
      assert Owned(kind);
      OthersOwned(kind);
      forall k, x | 0 <= k < 3 && k != kind && x in links[k] ensures x !in now {
        assert x in old(repr);
      }
      if old(Agrees()) && kind == bufCmdType {
        CursorAfterInsert(list, now, c, p, bufCmdPtr, old(pos), bufCmdId, bufCmdAccess, running);
      }
    }
  }

  datatype Request = Request(id: nat, kind: nat, access: Flags)
}

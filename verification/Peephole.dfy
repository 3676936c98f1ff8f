/**
  The peephole optimizer of the compiler (sc7-in.scp, the table of sequences), and what its
  replacements do on the abstract machine.

  A rule replaces a few instructions by fewer ones.  The table is covered by families: an
  operand that is fetched (from a global, from a local, a constant, or the address of a local),
  a comparison by its number.  A rule keeps what the rest of the code can see: the registers
  except those that are said to be lost, and the memory except the cell below the stack, where
  the longer sequence has pushed something and popped it again.
*/
module Peephole {
  import opened Pawn
  import opened Wrappers

  const SHL_C_PRI := 68
  const AND := 81

  /** An instruction without and with an operand. */
  datatype Instr = I(op: cell) | J(op: cell, arg: cell)

  /** `pri` and `alt` tell whether the register has the same value afterwards. */
  datatype Rule = Rule(find: seq<Instr>, replace: seq<Instr>, pri: bool, alt: bool)

  // ----- straight-line execution -----

  function Do(env: Env, i: Instr, s: State): Outcome {
    Execute(env, i.op, if i.J? then i.arg else 0, s, 0)
  }

  function Then(env: Env, o: Outcome, i: Instr): Outcome {
    match o
    case Running(t) => Do(env, i, t)
    case _ => o
  }

  /** The first `n` instructions; `s.cip` is the end of the sequence, where it continues if no jump
      is taken. */
  function Played(env: Env, ins: seq<Instr>, s: State, n: nat): Outcome
    requires n <= |ins|
  {
    if n == 0 then Running(s) else Then(env, Played(env, ins, s, n - 1), ins[n-1])
  }

  function Play(env: Env, ins: seq<Instr>, s: State): Outcome { Played(env, ins, s, |ins|) }

  /** The address of the cell below the stack. */
  function Below(s: State): cell { Wrap(s.stk - CELL) }

  predicate Agree(s: State, t: State, pri: bool, alt: bool) {
    && t == s.(pri := t.pri, alt := t.alt, mem := t.mem) && (pri ==> t.pri == s.pri) && (alt ==> t.alt == s.alt)
    && t.mem.Keys == s.mem.Keys
    && forall a :: a in s.mem && a != Below(s) ==> t.mem[a] == s.mem[a]
  }

  /** Whatever the longer sequence does, as long as it stays within the memory. */
  predicate Same(o: Outcome, o': Outcome, pri: bool, alt: bool) {
    match o
    case Running(s) => o'.Running? && Agree(s, o'.s, pri, alt)
    case Stopped(err, _) => o'.Stopped? && o'.err == err
    case Returned(err, _) => o'.Returned? && o'.err == err
    case Fault => true
  }

  predicate Preserves(env: Env, s: State, r: Rule) {
    Same(Play(env, r.find, s), Play(env, r.replace, s), r.pri, r.alt)
  }

  lemma Unrolled(env: Env, ins: seq<Instr>, s: State)
    requires |ins| <= 8
    ensures
      var o0 := Running(s);
      var o1 := if |ins| > 0 then Then(env, o0, ins[0]) else o0;
      var o2 := if |ins| > 1 then Then(env, o1, ins[1]) else o1;
      var o3 := if |ins| > 2 then Then(env, o2, ins[2]) else o2;
      var o4 := if |ins| > 3 then Then(env, o3, ins[3]) else o3;
      var o5 := if |ins| > 4 then Then(env, o4, ins[4]) else o4;
      var o6 := if |ins| > 5 then Then(env, o5, ins[5]) else o5;
      var o7 := if |ins| > 6 then Then(env, o6, ins[6]) else o6;
      var o8 := if |ins| > 7 then Then(env, o7, ins[7]) else o7;
      Play(env, ins, s) == o8
  {
    hide Then;
    forall n | 0 < n <= |ins| ensures Played(env, ins, s, n) == Then(env, Played(env, ins, s, n - 1), ins[n-1]) {
    }
    assert Played(env, ins, s, 0) == Running(s);
  }

  // ----- operands -----

  datatype Source = Global | Local | Constant | Address

  function FetchPri(k: Source, p: cell): Instr {
    J(match k case Global => LOAD_PRI case Local => LOAD_S_PRI case Constant => CONST_PRI case Address => ADDR_PRI, p)
  }

  function FetchAlt(k: Source, p: cell): Instr {
    J(match k case Global => LOAD_ALT case Local => LOAD_S_ALT case Constant => CONST_ALT case Address => ADDR_ALT, p)
  }

  function PushOf(k: Source, p: cell): Instr {
    J(match k case Global => PUSH case Local => PUSH_S case Constant => PUSH_C case Address => PUSHADDR, p)
  }

  function Fetched(k: Source, p: cell, s: State): Option<cell> {
    match k
    case Global => if p in s.mem then Some(s.mem[p]) else None
    case Local => if s.frm + p in s.mem then Some(s.mem[s.frm + p]) else None
    case Constant => Some(p)
    case Address => Some(Wrap(s.frm + p))
  }

  /** The operand is not the cell below the stack, which the longer sequence writes. */
  predicate Clear(k: Source, p: cell, s: State) {
    (k == Global ==> p != Below(s)) && (k == Local ==> s.frm + p != Below(s))
  }

  lemma Fetch(env: Env, k: Source, p: cell, s: State)
    ensures Do(env, FetchPri(k, p), s) == (match Fetched(k, p, s) case None => Fault case Some(v) => Running(s.(pri := v)))
    ensures Do(env, FetchAlt(k, p), s) == (match Fetched(k, p, s) case None => Fault case Some(v) => Running(s.(alt := v)))
  {
    match k case Global => case Local => case Constant => case Address =>
  }

  lemma FetchPush(env: Env, k: Source, p: cell, s: State)
    ensures Do(env, PushOf(k, p), s) == (match Fetched(k, p, s) case None => Fault case Some(v) => Push(s, v))
  {
    match k case Global => case Local => case Constant => case Address =>
  }

  lemma Stacks(env: Env, s: State)
    ensures Do(env, I(PUSH_PRI), s) == Push(s, s.pri) && Do(env, I(PUSH_ALT), s) == Push(s, s.alt)
    ensures Do(env, I(POP_ALT), s) ==
      (if s.stk in s.mem then Running(s.(alt := s.mem[s.stk], stk := Wrap(s.stk + CELL))) else Fault)
  {
  }

  lemma Moves(env: Env, s: State)
    ensures Do(env, I(MOVE_PRI), s) == Running(s.(pri := s.alt)) && Do(env, I(MOVE_ALT), s) == Running(s.(alt := s.pri))
    ensures Do(env, I(XCHG), s) == Running(s.(pri := s.alt, alt := s.pri))
  {
  }

  /** What is pushed is popped again. */
  lemma PushedAndPopped(s: State, v: cell)
    ensures match Push(s, v)
      case Running(t) =>
        && t == s.(stk := t.stk, mem := t.mem) && t.stk == Below(s) && t.stk in s.mem && t.mem == s.mem[t.stk as int := v]
        && t.mem.Keys == s.mem.Keys && Wrap(t.stk + CELL) == s.stk
      case o => o == Fault
  {
  }

  /** A push depends on the registers only by its value. */
  lemma PushedWith(s: State, pri: cell, alt: cell, v: cell)
    ensures Push(s.(pri := pri, alt := alt), v) ==
      (match Push(s, v) case Running(t) => Running(t.(pri := pri, alt := alt)) case o => o)
  {
  }

  function FetchedBoth(k1: Source, k2: Source, p: cell, q: cell): Rule {
    Rule([FetchPri(k1, p), I(PUSH_PRI), FetchPri(k2, q), I(POP_ALT)], [FetchPri(k2, q), FetchAlt(k1, p)], true, true)
  }

  lemma FetchedBothPreserves(env: Env, s: State, k1: Source, k2: Source, p: cell, q: cell)
    requires Clear(k2, q, s)
    ensures Preserves(env, s, FetchedBoth(k1, k2, p, q))
  {
    hide Do, Push, FetchPri, FetchAlt;
    var r := FetchedBoth(k1, k2, p, q);
    Unrolled(env, r.find, s);
    Unrolled(env, r.replace, s);
    Fetch(env, k1, p, s);
    if v :| Fetched(k1, p, s) == Some(v) {
      var t := s.(pri := v);
      Stacks(env, t);
      PushedAndPopped(t, v);
      if u :| Push(t, v) == Running(u) {
        Fetch(env, k2, q, u);
        Fetch(env, k2, q, s);
        if w :| Fetched(k2, q, u) == Some(w) {
          Stacks(env, u.(pri := w));
          Fetch(env, k1, p, s.(pri := w));
        }
      }
    }
  }

  /** Of the cell below the stack the longer sequence reads what it has pushed: then the rule is
      right exactly if that is what the cell holds. */
  lemma FetchedBelow(env: Env, s: State, k: Source, p: cell, q: cell)
    requires s.frm + q == Below(s) && Below(s) in s.mem && Fetched(k, p, s).Some?
    ensures Preserves(env, s, FetchedBoth(k, Local, p, q)) <==> s.mem[Below(s)] == Fetched(k, p, s).value
  {
    hide Do, Push, FetchPri, FetchAlt;
    var r := FetchedBoth(k, Local, p, q);
    var v := Fetched(k, p, s).value;
    Unrolled(env, r.find, s);
    Unrolled(env, r.replace, s);
    Fetch(env, k, p, s);
    var t := s.(pri := v);
    Stacks(env, t);
    PushedAndPopped(t, v);
    PushedOn(t, v);
    var u := Push(t, v).s;
    Fetch(env, Local, q, u);
    Fetch(env, Local, q, s);
    Stacks(env, u);
    Fetch(env, k, p, s.(pri := s.mem[Below(s)]));
  }

  lemma PushedOn(s: State, v: cell)
    requires Below(s) in s.mem
    ensures Push(s, v).Running?
  {
  }

  function MovedAndFetched(k: Source, q: cell): Rule {
    Rule([I(MOVE_PRI), I(PUSH_PRI), FetchPri(k, q), I(POP_ALT)], [FetchPri(k, q)], true, true)
  }

  lemma MovedAndFetchedPreserves(env: Env, s: State, k: Source, q: cell)
    requires Clear(k, q, s)
    ensures Preserves(env, s, MovedAndFetched(k, q))
  {
    hide Do, Push, FetchPri, FetchAlt;
    var r := MovedAndFetched(k, q);
    Unrolled(env, r.find, s);
    Unrolled(env, r.replace, s);
    Moves(env, s);
    var t := s.(pri := s.alt);
    Stacks(env, t);
    PushedAndPopped(t, t.pri);
    if u :| Push(t, t.pri) == Running(u) {
      Fetch(env, k, q, u);
      Fetch(env, k, q, s);
      if w :| Fetched(k, q, u) == Some(w) { Stacks(env, u.(pri := w)); }
    }
  }

  function PushedAndFetched(k: Source, q: cell): Rule {
    Rule([I(PUSH_PRI), FetchPri(k, q), I(POP_ALT)], [I(MOVE_ALT), FetchPri(k, q)], true, true)
  }

  lemma PushedAndFetchedPreserves(env: Env, s: State, k: Source, q: cell)
    requires Clear(k, q, s)
    ensures Preserves(env, s, PushedAndFetched(k, q))
  {
    hide Do, Push, FetchPri, FetchAlt;
    var r := PushedAndFetched(k, q);
    Unrolled(env, r.find, s);
    Unrolled(env, r.replace, s);
    Stacks(env, s);
    Moves(env, s);
    PushedAndPopped(s, s.pri);
    if u :| Push(s, s.pri) == Running(u) {
      Fetch(env, k, q, u);
      Fetch(env, k, q, s.(alt := s.pri));
      if w :| Fetched(k, q, u) == Some(w) { Stacks(env, u.(pri := w)); }
    }
  }

  /** What is pushed and popped at once, and a register that is moved to be pushed. */
  function PushedBack(): seq<Rule> {
    [Rule([I(PUSH_PRI), I(POP_ALT)], [I(MOVE_ALT)], true, true),
     Rule([I(MOVE_PRI), I(PUSH_PRI)], [I(PUSH_ALT)], false, true)]
  }

  lemma Loads(env: Env, s: State)
    ensures Do(env, I(LOAD_I), s) == if Accessible(env, s, s.pri) then LoadPri(s, s.pri) else Stopped(ERR_MEMACCESS, s)
  {
  }

  lemma PushedBackPreserves(env: Env, s: State, j: nat)
    requires j < 2
    ensures Preserves(env, s, PushedBack()[j])
  {
    hide Do, Push;
    var r := PushedBack()[j];
    Unrolled(env, r.find, s);
    Unrolled(env, r.replace, s);
    Stacks(env, s);
    Moves(env, s);
    var v := if j == 0 then s.pri else s.alt;
    PushedAndPopped(s, v);
    if j == 1 {
      Stacks(env, s.(pri := s.alt));
      PushedWith(s, s.alt, s.alt, v);
    } else if u :| Push(s, v) == Running(u) {
      Stacks(env, u);
    }
  }

  function PushedAndLoaded(): Rule { Rule([I(PUSH_PRI), I(LOAD_I), I(POP_ALT)], [I(MOVE_ALT), I(LOAD_I)], true, true) }

  /** The pushed value is not what is loaded. */
  lemma PushedAndLoadedPreserves(env: Env, s: State)
    requires Below(s) < s.stk && !(Below(s) <= s.pri < s.stk)
    ensures Preserves(env, s, PushedAndLoaded())
  {
    hide Do, Push, Unsigned;
    var r := PushedAndLoaded();
    Unrolled(env, r.find, s);
    Unrolled(env, r.replace, s);
    Stacks(env, s);
    Moves(env, s);
    PushedAndPopped(s, s.pri);
    if u :| Push(s, s.pri) == Running(u) {
      Loads(env, u);
      Loads(env, s.(alt := s.pri));
      if w :| Do(env, I(LOAD_I), u) == Running(w) { Stacks(env, w); }
    }
  }

  function Exchanged(k1: Source, k2: Source, p: cell, q: cell): Rule {
    Rule([FetchPri(k1, p), FetchAlt(k2, q), I(XCHG)], [FetchPri(k2, q), FetchAlt(k1, p)], true, true)
  }

  lemma ExchangedPreserves(env: Env, s: State, k1: Source, k2: Source, p: cell, q: cell)
    ensures Preserves(env, s, Exchanged(k1, k2, p, q))
  {
    hide Do, FetchPri, FetchAlt;
    var r := Exchanged(k1, k2, p, q);
    Unrolled(env, r.find, s);
    Unrolled(env, r.replace, s);
    Fetch(env, k1, p, s);
    if v :| Fetched(k1, p, s) == Some(v) {
      Fetch(env, k2, q, s.(pri := v));
      Fetch(env, k2, q, s);
      if w :| Fetched(k2, q, s) == Some(w) {
        Moves(env, s.(pri := v, alt := w));
        Fetch(env, k1, p, s.(pri := w));
      }
    }
  }

  // ----- comparisons -----

  type Comparison = c: nat | c < 10

  function Compare(c: Comparison): Instr { I(EQ + c) }

  function JumpIf(c: Comparison, p: cell): Instr { J(JEQ + c, p) }

  /** The comparison with its operands exchanged. */
  function Flipped(c: Comparison): Comparison {
    match c case 0 => 0 case 1 => 1 case 2 => 4 case 3 => 5 case 4 => 2 case 5 => 3 case 6 => 8 case 7 => 9 case 8 => 6 case _ => 7
  }

  function Negated(c: Comparison): Comparison {
    match c case 0 => 1 case 1 => 0 case 2 => 5 case 3 => 4 case 4 => 3 case 5 => 2 case 6 => 9 case 7 => 8 case 8 => 7 case _ => 6
  }

  lemma FlippedCompares(c: Comparison, x: cell, y: cell)
    ensures Compares(Flipped(c), x, y) <==> Compares(c, y, x)
    ensures Compares(Negated(c), x, y) <==> !Compares(c, x, y)
    ensures 6 <= c && x >= 0 && y >= 0 ==> (Compares(c, x, y) <==> Compares(c - 4, x, y))
  {
  }

  lemma Tests(env: Env, c: Comparison, p: cell, s: State)
    ensures Do(env, Compare(c), s) == Running(s.(pri := if Compares(c, s.pri, s.alt) then 1 else 0))
    ensures Do(env, JumpIf(c, p), s) == Running(if Compares(c, s.pri, s.alt) then s.(cip := JumpTarget(env.base, p)) else s)
  {
    hide Compares;
  }

  lemma ZeroTests(env: Env, p: cell, s: State)
    ensures Do(env, J(JZER, p), s) == Running(if s.pri == 0 then s.(cip := JumpTarget(env.base, p)) else s)
    ensures Do(env, J(JNZ, p), s) == Running(if s.pri != 0 then s.(cip := JumpTarget(env.base, p)) else s)
    ensures Do(env, I(ZERO_PRI), s) == Running(s.(pri := 0)) && Do(env, I(ZERO_ALT), s) == Running(s.(alt := 0))
  {
  }

  function Comparing(c: Comparison, p: cell): seq<Rule> {
    [Rule([I(XCHG), Compare(c)], [Compare(Flipped(c))], true, false),
     Rule([I(XCHG), Compare(c), J(JZER, p)], [JumpIf(Negated(Flipped(c)), p)], false, false),
     Rule([Compare(c), J(JZER, p)], [JumpIf(Negated(c), p)], false, true),
     Rule([Compare(c), J(JNZ, p)], [JumpIf(c, p)], false, true)]
  }

  lemma ComparingPreserves(env: Env, s: State, c: Comparison, p: cell, j: nat)
    requires j < 4
    ensures Preserves(env, s, Comparing(c, p)[j])
  {
    hide Do, Compare, JumpIf, Compares, Flipped, Negated;
    var r := Comparing(c, p)[j];
    Unrolled(env, r.find, s);
    Unrolled(env, r.replace, s);
    Moves(env, s);
    var x := s.(pri := s.alt, alt := s.pri);
    Tests(env, c, p, if j < 2 then x else s);
    ZeroTests(env, p, s.(pri := if Compares(c, s.pri, s.alt) then 1 else 0));
    ZeroTests(env, p, x.(pri := if Compares(c, x.pri, x.alt) then 1 else 0));
    Tests(env, if j == 0 then Flipped(c) else if j == 1 then Negated(Flipped(c)) else if j == 2 then Negated(c) else c, p, s);
    FlippedCompares(c, s.pri, s.alt);
    FlippedCompares(Flipped(c), s.pri, s.alt);
  }

  /** Comparisons with zero. */
  function ZeroComparing(p: cell): seq<Rule> {
    [Rule([I(ZERO_ALT), JumpIf(0, p)], [J(JZER, p)], true, false),
     Rule([I(ZERO_ALT), JumpIf(1, p)], [J(JNZ, p)], true, false),
     Rule([J(CONST_PRI, 0)], [I(ZERO_PRI)], true, true),
     Rule([J(CONST_ALT, 0)], [I(ZERO_ALT)], true, true)]
  }

  lemma ZeroComparingPreserves(env: Env, s: State, p: cell, j: nat)
    requires j < 4
    ensures Preserves(env, s, ZeroComparing(p)[j])
  {
    hide Do, JumpIf;
    var r := ZeroComparing(p)[j];
    Unrolled(env, r.find, s);
    Unrolled(env, r.replace, s);
    ZeroTests(env, p, s);
    Tests(env, 0, p, s.(alt := 0));
    Tests(env, 1, p, s.(alt := 0));
    Fetch(env, Constant, 0, s);
  }

  /** A chain of comparisons; both sequences combine the same two values. */
  function Chained(c: Comparison): Rule {
    Rule([I(XCHG), Compare(c), I(SWAP_ALT), I(AND), I(POP_ALT)], [Compare(Flipped(c)), I(POP_ALT), I(AND)], true, false)
  }

  lemma Combines(env: Env, s: State)
    ensures Do(env, I(AND), s) == (match env.alu(AND, 0, s.pri, s.alt)
      case None => Stopped(ERR_DIVIDE, s)
      case Some((pri, alt)) => Running(s.(pri := pri, alt := alt)))
    ensures Do(env, I(SWAP_ALT), s) ==
      (if s.stk in s.mem then Running(s.(alt := s.mem[s.stk], mem := s.mem[s.stk := s.alt])) else Fault)
  {
  }

  lemma ChainedPreserves(env: Env, s: State, c: Comparison)
    ensures Preserves(env, s, Chained(c))
  {
    hide Do, Compare, Compares, Flipped, Negated;
    var r := Chained(c);
    Unrolled(env, r.find, s);
    Unrolled(env, r.replace, s);
    Moves(env, s);
    var x := s.(pri := s.alt, alt := s.pri);
    Tests(env, c, 0, x);
    Tests(env, Flipped(c), 0, s);
    FlippedCompares(c, s.pri, s.alt);
    var f := x.(pri := if Compares(c, x.pri, x.alt) then 1 else 0);
    Combines(env, f);
    Stacks(env, s.(pri := f.pri));
    if s.stk in s.mem {
      var g := f.(alt := s.mem[s.stk], mem := s.mem[s.stk := s.pri]);
      Combines(env, g);
      Combines(env, s.(pri := f.pri, alt := s.mem[s.stk], stk := Wrap(s.stk + CELL)));
      if a, b :| env.alu(AND, 0, g.pri, g.alt) == Some((a, b)) {
        Stacks(env, g.(pri := a, alt := b));
        UnwrapsBelow(s.stk);
      }
    }
  }

  lemma UnwrapsBelow(stk: cell)
    ensures Wrap(Wrap(stk + CELL) - CELL) == stk
  {
  }

  // ----- pushing parameters -----

  function PushedSource(k: Source, p: cell): Rule { Rule([FetchPri(k, p), I(PUSH_PRI)], [PushOf(k, p)], false, true) }

  lemma PushedSourcePreserves(env: Env, s: State, k: Source, p: cell)
    ensures Preserves(env, s, PushedSource(k, p))
  {
    hide Do, Push, FetchPri, PushOf;
    var r := PushedSource(k, p);
    Unrolled(env, r.find, s);
    Unrolled(env, r.replace, s);
    Fetch(env, k, p, s);
    FetchPush(env, k, p, s);
    if v :| Fetched(k, p, s) == Some(v) {
      Stacks(env, s.(pri := v));
      assert s.(pri := v) == s.(pri := v, alt := s.alt);
      PushedWith(s, v, s.alt, v);
      PushedAndPopped(s, v);
    }
  }

  /** Two parameters, in either order. */
  function PushedTwo(k1: Source, k2: Source, p: cell, q: cell): seq<Rule> {
    [Rule([FetchPri(k1, p), FetchAlt(k2, q), I(PUSH_PRI), I(PUSH_ALT)], [PushOf(k1, p), PushOf(k2, q)], false, false),
     Rule([FetchPri(k1, p), FetchAlt(k2, q), I(PUSH_ALT), I(PUSH_PRI)], [PushOf(k2, q), PushOf(k1, p)], false, false)]
  }

  lemma PushedInOrder(env: Env, s: State, k1: Source, k2: Source, p: cell, q: cell)
    requires Clear(k2, q, s)
    ensures Preserves(env, s, PushedTwo(k1, k2, p, q)[0])
  {
    hide Do, Push, FetchPri, FetchAlt, PushOf;
    var r := PushedTwo(k1, k2, p, q)[0];
    Unrolled(env, r.find, s);
    Unrolled(env, r.replace, s);
    Fetch(env, k1, p, s);
    if v :| Fetched(k1, p, s) == Some(v) {
      Fetch(env, k2, q, s.(pri := v));
      if w :| Fetched(k2, q, s) == Some(w) {
        Stacks(env, s.(pri := v, alt := w));
        FetchPush(env, k1, p, s);
        PushedWith(s, v, w, v);
        PushedAndPopped(s, v);
        if t :| Push(s, v) == Running(t) {
          Stacks(env, t.(pri := v, alt := w));
          FetchPush(env, k2, q, t);
          PushedWith(t, v, w, w);
          PushedAndPopped(t, w);
        }
      }
    }
  }

  lemma PushedReversed(env: Env, s: State, k1: Source, k2: Source, p: cell, q: cell)
    requires Clear(k1, p, s)
    ensures Preserves(env, s, PushedTwo(k1, k2, p, q)[1])
  {
    hide Do, Push, FetchPri, FetchAlt, PushOf;
    var r := PushedTwo(k1, k2, p, q)[1];
    Unrolled(env, r.find, s);
    Unrolled(env, r.replace, s);
    Fetch(env, k1, p, s);
    if v :| Fetched(k1, p, s) == Some(v) {
      Fetch(env, k2, q, s.(pri := v));
      if w :| Fetched(k2, q, s) == Some(w) {
        Stacks(env, s.(pri := v, alt := w));
        FetchPush(env, k2, q, s);
        PushedWith(s, v, w, w);
        PushedAndPopped(s, w);
        if t :| Push(s, w) == Running(t) {
          Stacks(env, t.(pri := v, alt := w));
          FetchPush(env, k1, p, t);
          PushedWith(t, v, w, v);
          PushedAndPopped(t, v);
        }
      }
    }
  }

  /** A local variable that is declared with a constant: it is the new top of the stack. */
  function Declared(q: cell, c: cell): Rule {
    Rule([J(STACK, -4), J(CONST_PRI, c), J(STOR_S_PRI, q)], [J(PUSH_C, c)], false, false)
  }

  lemma DeclaredPreserves(env: Env, s: State, q: cell, c: cell)
    requires s.frm + q == Below(s) && s.hea + STKMARGIN <= Below(s) <= env.stp
    ensures Preserves(env, s, Declared(q, c))
  {
    hide Do;
    var r := Declared(q, c);
    Unrolled(env, r.find, s);
    Unrolled(env, r.replace, s);
    var t := s.(alt := s.stk, stk := Below(s));
    assert Do(env, J(STACK, -4), s) == Running(t) by { Grows(env, s); }
    Fetch(env, Constant, c, t);
    FetchPush(env, Constant, c, s);
    Stores(env, q, t.(pri := c));
  }

  lemma Grows(env: Env, s: State)
    requires s.hea + STKMARGIN <= Below(s) <= env.stp
    ensures Do(env, J(STACK, -4), s) == Running(s.(alt := s.stk, stk := Below(s)))
  {
  }

  lemma Stores(env: Env, p: cell, s: State)
    ensures Do(env, J(STOR_PRI, p), s) == Store(s, p, s.pri) && Do(env, J(STOR_S_PRI, p), s) == Store(s, s.frm + p, s.pri)
    ensures Do(env, J(ZERO, p), s) == Store(s, p, 0) && Do(env, J(ZERO_S, p), s) == Store(s, s.frm + p, 0)
    ensures Do(env, J(INC, p), s) == Bump(s, p, 1) && Do(env, J(INC_S, p), s) == Bump(s, s.frm + p, 1)
    ensures Do(env, J(DEC, p), s) == Bump(s, p, -1) && Do(env, J(DEC_S, p), s) == Bump(s, s.frm + p, -1)
  {
  }

  // ----- arithmetic and stores -----

  function Arithmetic(p: cell, q: cell): seq<Rule> {
    [Rule([J(CONST_ALT, p), I(ADD)], [J(ADD_C, p)], true, false),
     Rule([J(CONST_ALT, p), I(SUB)], [J(ADD_C, Wrap(-(p as int)))], true, false),
     Rule([J(CONST_ALT, p), I(EQ)], [J(EQ_C_PRI, p)], true, false),
     Rule([J(ADD_C, p), J(ADD_C, q)], [J(ADD_C, Wrap(p + q))], true, true)]
  }

  lemma Adds(env: Env, p: cell, s: State)
    ensures Do(env, I(ADD), s) == Running(s.(pri := Wrap(s.pri + s.alt)))
    ensures Do(env, I(SUB), s) == Running(s.(pri := Wrap(s.pri - s.alt)))
    ensures Do(env, I(SUB_ALT), s) == Running(s.(pri := Wrap(s.alt - s.pri)))
    ensures Do(env, J(ADD_C, p), s) == Running(s.(pri := Wrap(s.pri + p)))
    ensures Do(env, J(EQ_C_PRI, p), s) == Running(s.(pri := if s.pri == p then 1 else 0))
    ensures Do(env, I(EQ), s) == Running(s.(pri := if s.pri == s.alt then 1 else 0))
  {
  }

  lemma Constants(env: Env, p: cell, s: State)
    ensures Do(env, J(CONST_PRI, p), s) == Running(s.(pri := p)) && Do(env, J(CONST_ALT, p), s) == Running(s.(alt := p))
  {
  }

  lemma Sums(x: cell, p: cell, q: cell)
    ensures Wrap(x + Wrap(-(p as int))) == Wrap(x - p) && Wrap(Wrap(x + p) + q) == Wrap(x + Wrap(p + q))
  {
    WrapSum(-(p as int), x);
    WrapSum(x + p, q);
    WrapSum(p + q, x);
  }

  lemma ArithmeticPreserves(env: Env, s: State, p: cell, q: cell, j: nat)
    requires j < 4
    ensures Preserves(env, s, Arithmetic(p, q)[j])
  {
    hide Do, Wrap;
    var r := Arithmetic(p, q)[j];
    Unrolled(env, r.find, s);
    Unrolled(env, r.replace, s);
    Constants(env, p, s);
    Adds(env, if j == 1 then Wrap(-(p as int)) else if j == 3 then Wrap(p + q) else p, s);
    Adds(env, p, s);
    Adds(env, q, s.(pri := Wrap(s.pri + p)));
    Adds(env, p, s.(alt := p));
    Sums(s.pri, p, q);
  }

  function Subtracted(k: Source, p: cell, q: cell): Rule {
    Rule([J(CONST_PRI, p), FetchAlt(k, q), I(SUB_ALT)], [FetchPri(k, q), J(ADD_C, Wrap(-(p as int)))], true, false)
  }

  lemma SubtractedPreserves(env: Env, s: State, k: Source, p: cell, q: cell)
    ensures Preserves(env, s, Subtracted(k, p, q))
  {
    hide Do, Wrap, FetchPri, FetchAlt;
    var r := Subtracted(k, p, q);
    Unrolled(env, r.find, s);
    Unrolled(env, r.replace, s);
    Constants(env, p, s);
    Fetch(env, k, q, s.(pri := p));
    Fetch(env, k, q, s);
    if v :| Fetched(k, q, s) == Some(v) {
      Adds(env, p, s.(pri := p, alt := v));
      Adds(env, Wrap(-(p as int)), s.(pri := v));
      Sums(v, p, 0);
    }
  }

  /** Where a variable is. */
  datatype Place = Static | Frame

  function AddressOf(k: Place, p: cell, s: State): int { if k == Static then p else s.frm + p }

  function Load(k: Place, p: cell): Instr { J(if k == Static then LOAD_PRI else LOAD_S_PRI, p) }

  function Count(k: Place, up: bool, p: cell): Instr {
    J(if up then (if k == Static then INC else INC_S) else if k == Static then DEC else DEC_S, p)
  }

  function StoreOf(k: Place, p: cell): Instr { J(if k == Static then STOR_PRI else STOR_S_PRI, p) }

  function ZeroAt(k: Place, p: cell): Instr { J(if k == Static then ZERO else ZERO_S, p) }

  /** A counter whose value is not used, and a zero that is stored. */
  function Storing(k: Place, up: bool, p: cell): seq<Rule> {
    [Rule([Count(k, up, p), Load(k, p)], [Count(k, up, p)], false, true),
     Rule([Load(k, p), Count(k, up, p)], [Count(k, up, p)], false, true),
     Rule([I(ZERO_PRI), StoreOf(k, p)], [ZeroAt(k, p)], false, true)]
  }

  lemma Places(env: Env, k: Place, up: bool, p: cell, s: State)
    ensures var a := AddressOf(k, p, s);
      && Do(env, Load(k, p), s) == LoadPri(s, a) && Do(env, Count(k, up, p), s) == Bump(s, a, if up then 1 else -1)
      && Do(env, StoreOf(k, p), s) == Store(s, a, s.pri) && Do(env, ZeroAt(k, p), s) == Store(s, a, 0)
  {
    Fetch(env, Global, p, s);
    Fetch(env, Local, p, s);
    Stores(env, p, s);
  }

  lemma StoringPreserves(env: Env, s: State, k: Place, up: bool, p: cell, j: nat)
    requires j < 3
    ensures Preserves(env, s, Storing(k, up, p)[j])
  {
    hide Do, Wrap, Load, Count, StoreOf, ZeroAt, AddressOf;
    var r := Storing(k, up, p)[j];
    Unrolled(env, r.find, s);
    Unrolled(env, r.replace, s);
    Places(env, k, up, p, s);
    ZeroTests(env, 0, s);
    var a := AddressOf(k, p, s);
    if a in s.mem {
      var read, counted := s.(pri := s.mem[a]), s.(mem := s.mem[a := Wrap(s.mem[a] as int + if up then 1 else -1)]);
      SameAddress(k, p, s, read);
      SameAddress(k, p, s, counted);
      Places(env, k, up, p, read);
      Places(env, k, up, p, counted);
    }
    SameAddress(k, p, s, s.(pri := 0));
    Places(env, k, up, p, s.(pri := 0));
  }

  lemma SameAddress(k: Place, p: cell, s: State, t: State)
    requires t.frm == s.frm
    ensures AddressOf(k, p, t) == AddressOf(k, p, s)
  {
  }

  // ----- array indices -----

  /** A shift by two bits multiplies by the size of a cell. */
  ghost predicate ShiftsByTwo(env: Env) {
    forall x: cell, y: cell :: env.alu(SHL_C_PRI, 2, x, y) == Some((Wrap(4 * x), y))
  }

  function Scale(): Instr { J(SHL_C_PRI, 2) }

  function Index(load: bool): Instr { I(if load then LIDX else IDXADDR) }

  /** The element of an array: its address is that of the array plus four times the index. */
  function Indexed(k: Source, p: cell, q: cell, bounds: seq<cell>, load: bool): Rule
    requires |bounds| <= 1
  {
    var check: seq<Instr> := if bounds == [] then [] else [J(BOUNDS, bounds[0])];
    var fetch: seq<Instr> := if load then [I(LOAD_I)] else [];
    Rule([FetchPri(k, p), I(PUSH_PRI), FetchPri(Local, q)] + check + [Scale(), I(POP_ALT), I(ADD)] + fetch,
         [FetchAlt(k, p), FetchPri(Local, q)] + check + [Index(load)], true, true)
  }

  lemma Indexes(env: Env, s: State)
    requires ShiftsByTwo(env)
    ensures Do(env, Scale(), s) == Running(s.(pri := Wrap(4 * s.pri)))
    ensures Do(env, Index(false), s) == Running(s.(pri := Wrap(4 * s.pri + s.alt)))
    ensures Do(env, Index(true), s) == (var a := Wrap(4 * s.pri + s.alt); if Accessible(env, s, a) then LoadPri(s, a) else Stopped(ERR_MEMACCESS, s))
  {
    hide Accessible;
  }

  lemma Checks(env: Env, c: cell, s: State)
    ensures Do(env, J(BOUNDS, c), s) == if Unsigned(s.pri) > Unsigned(c) then Stopped(ERR_BOUNDS, s) else Running(s)
  {
  }

  /** The check of the index. */
  predicate InBounds(bounds: seq<cell>, w: cell)
    requires |bounds| <= 1
  {
    bounds == [] || Unsigned(w) <= Unsigned(bounds[0])
  }

  lemma IndexedFinds(env: Env, s: State, k: Source, p: cell, q: cell, bounds: seq<cell>, load: bool, u: State, w: cell)
    requires ShiftsByTwo(env) && (k == Constant || k == Address) && |bounds| <= 1
    requires var v := Fetched(k, p, s).value; Push(s.(pri := v), v) == Running(u) && Fetched(Local, q, u) == Some(w)
    ensures var v := Fetched(k, p, s).value;
      var summed := u.(pri := Wrap(4 * w as int + v), alt := v, stk := s.stk);
      var o := Play(env, Indexed(k, p, q, bounds, load).find, s);
      if !InBounds(bounds, w) then o.Stopped? && o.err == ERR_BOUNDS
      else o == if load then Do(env, I(LOAD_I), summed) else Running(summed)
  {
    hide Do, Push, FetchPri, FetchAlt, Scale, Index, Wrap, Unsigned;
    var v := Fetched(k, p, s).value;
    var t := s.(pri := v);
    Unrolled(env, Indexed(k, p, q, bounds, load).find, s);
    Fetch(env, k, p, s);
    Stacks(env, t);
    PushedAndPopped(t, v);
    Fetch(env, Local, q, u);
    Indexes(env, u.(pri := w));
    if bounds != [] { Checks(env, bounds[0], u.(pri := w)); }
    var scaled := u.(pri := Wrap(4 * w as int));
    Stacks(env, scaled);
    Adds(env, 0, scaled.(alt := v, stk := s.stk));
    WrapSum(4 * w, v);
  }

  lemma IndexedReplaces(env: Env, s: State, k: Source, p: cell, q: cell, bounds: seq<cell>, load: bool, w: cell)
    requires ShiftsByTwo(env) && (k == Constant || k == Address) && |bounds| <= 1 && Fetched(Local, q, s) == Some(w)
    ensures var v := Fetched(k, p, s).value;
      var a := Wrap(4 * w as int + v);
      var o := Play(env, Indexed(k, p, q, bounds, load).replace, s);
      if !InBounds(bounds, w) then o.Stopped? && o.err == ERR_BOUNDS
      else o == if !load then Running(s.(pri := a, alt := v))
                else if Accessible(env, s, a) then LoadPri(s.(pri := w, alt := v), a)
                else Stopped(ERR_MEMACCESS, s.(pri := w, alt := v))
  {
    hide Do, FetchPri, FetchAlt, Scale, Index, Wrap, Unsigned;
    var x := s.(alt := Fetched(k, p, s).value);
    Unrolled(env, Indexed(k, p, q, bounds, load).replace, s);
    Fetch(env, k, p, s);
    Fetch(env, Local, q, x);
    Indexes(env, x.(pri := w));
    if bounds != [] { Checks(env, bounds[0], x.(pri := w)); }
  }

  lemma IndexedPreserves(env: Env, s: State, k: Source, p: cell, q: cell, bounds: seq<cell>, load: bool)
    requires ShiftsByTwo(env) && (k == Constant || k == Address) && |bounds| <= 1 && Clear(Local, q, s)
    requires load ==> s.hea <= Below(s) < s.stk
    ensures Preserves(env, s, Indexed(k, p, q, bounds, load))
  {
    hide Do, Push, FetchPri, FetchAlt, Scale, Index, Wrap, Unsigned;
    var v := Fetched(k, p, s).value;
    var t := s.(pri := v);
    PushedAndPopped(t, v);
    Fetch(env, k, p, s);
    Stacks(env, t);
    Unrolled(env, Indexed(k, p, q, bounds, load).find, s);
    if u :| Push(t, v) == Running(u) {
      Fetch(env, Local, q, u);
      if w :| Fetched(Local, q, u) == Some(w) {
        IndexedFinds(env, s, k, p, q, bounds, load, u, w);
        IndexedReplaces(env, s, k, p, q, bounds, load, w);
        Loads(env, u.(pri := Wrap(4 * w as int + v), alt := v, stk := s.stk));
      }
    }
  }

  /** An index that is checked, and the address of an element from what is on the stack. */
  function Checked(k: Source, p: cell, q: cell, c: cell): Rule {
    Rule([FetchPri(k, p), I(PUSH_PRI), FetchPri(Local, q), J(BOUNDS, c), I(POP_ALT)],
         [FetchAlt(k, p), FetchPri(Local, q), J(BOUNDS, c)], true, true)
  }

  lemma CheckedPreserves(env: Env, s: State, k: Source, p: cell, q: cell, c: cell)
    requires (k == Constant || k == Address) && Clear(Local, q, s)
    ensures Preserves(env, s, Checked(k, p, q, c))
  {
    hide Do, Push, FetchPri, FetchAlt, Wrap, Unsigned;
    var r := Checked(k, p, q, c);
    var v := Fetched(k, p, s).value;
    var t := s.(pri := v);
    Unrolled(env, r.find, s);
    Unrolled(env, r.replace, s);
    Fetch(env, k, p, s);
    Stacks(env, t);
    PushedAndPopped(t, v);
    if u :| Push(t, v) == Running(u) {
      Fetch(env, Local, q, u);
      Fetch(env, Local, q, s.(alt := v));
      if w :| Fetched(Local, q, u) == Some(w) {
        Checks(env, c, u.(pri := w));
        Checks(env, c, s.(alt := v, pri := w));
        Stacks(env, u.(pri := w));
      }
    }
  }

  function Scaled(): Rule { Rule([Scale(), I(POP_ALT), I(ADD)], [I(POP_ALT), Index(false)], true, true) }

  lemma ScaledPreserves(env: Env, s: State)
    requires ShiftsByTwo(env)
    ensures Preserves(env, s, Scaled())
  {
    hide Do, Scale, Index, Wrap;
    var r := Scaled();
    Unrolled(env, r.find, s);
    Unrolled(env, r.replace, s);
    Indexes(env, s);
    var t := s.(pri := Wrap(4 * s.pri as int));
    Stacks(env, t);
    Stacks(env, s);
    if s.stk in s.mem {
      var popped := s.(alt := s.mem[s.stk], stk := Wrap(s.stk + CELL));
      Adds(env, 0, popped.(pri := t.pri));
      Indexes(env, popped);
      WrapSum(4 * s.pri, s.mem[s.stk]);
    }
  }

  // ----- in the code -----

  /** Instructions that continue behind themselves, and those that may jump. */
  predicate Straight(op: cell) {
    IsData(op) || IsStack(op) || 65 <= op <= EQ_C_ALT || op == BOUNDS
  }

  predicate Branch(op: cell) { JZER <= op <= JSGEQ }

  /** The form of an instruction is the one that the loader expects. */
  predicate Encoded(i: Instr) {
    if i.J? then LayoutOf(i.op) == Some(Operand) || LayoutOf(i.op) == Some(Target) else LayoutOf(i.op) == Some(Plain)
  }

  predicate Sequence(ins: seq<Instr>) {
    forall k :: 0 <= k < |ins| ==> Encoded(ins[k]) && (Straight(ins[k].op) || (k == |ins| - 1 && Branch(ins[k].op)))
  }

  /** The cells of the first `n` instructions. */
  function Cells(ins: seq<Instr>, n: nat): seq<cell>
    requires n <= |ins|
  {
    if n == 0 then [] else Cells(ins, n - 1) + if ins[n-1].J? then [ins[n-1].op, ins[n-1].arg] else [ins[n-1].op]
  }

  predicate LiesAt(code: seq<cell>, ins: seq<Instr>, i: nat) {
    i + |Cells(ins, |ins|)| <= |code| && code[i..i + |Cells(ins, |ins|)|] == Cells(ins, |ins|)
  }

  /** The outcome of an instruction that does not jump, with another next address. */
  function Moved(o: Outcome, c: int): Outcome {
    match o
    case Running(t) => Running(t.(cip := c))
    case Stopped(err, t) => Stopped(err, t.(cip := c))
    case Returned(err, t) => Returned(err, t.(cip := c))
    case Fault => Fault
  }

  lemma StraightMoves(env: Env, op: cell, arg: cell, s: State, c: int, codesize: nat)
    requires Straight(op)
    ensures Execute(env, op, arg, s.(cip := c), codesize) == Moved(Execute(env, op, arg, s, 0), c)
    ensures Execute(env, op, arg, s, 0).Running? ==> Execute(env, op, arg, s, 0).s.cip == s.cip
  {
    if IsData(op) {
      DataMoves(env, op, arg, s, c);
    } else if IsStack(op) {
      StackMoves(env, op, arg, s, c);
    }
  }

  lemma DataMoves(env: Env, op: cell, arg: cell, s: State, c: int)
    requires IsData(op)
    ensures ExecData(env, op, arg, s.(cip := c)) == Moved(ExecData(env, op, arg, s), c)
    ensures ExecData(env, op, arg, s).Running? ==> ExecData(env, op, arg, s).s.cip == s.cip
  {
    hide Wrap;
  }

  lemma StackMoves(env: Env, op: cell, arg: cell, s: State, c: int)
    requires IsStack(op)
    ensures ExecStack(env, op, arg, s.(cip := c)) == Moved(ExecStack(env, op, arg, s), c)
    ensures ExecStack(env, op, arg, s).Running? ==> ExecStack(env, op, arg, s).s.cip == s.cip
  {
    hide Wrap;
  }

  lemma {:induction false} CellsAt(ins: seq<Instr>, n: nat)
    requires n < |ins|
    ensures Cells(ins, n) <= Cells(ins, |ins|) && |Cells(ins, n)| < |Cells(ins, |ins|)|
    ensures var c, k := Cells(ins, |ins|), |Cells(ins, n)|;
      c[k] == ins[n].op && (ins[n].J? ==> k + 1 < |c| && c[k+1] == ins[n].arg)
    ensures |Cells(ins, n + 1)| == |Cells(ins, n)| + if ins[n].J? then 2 else 1
    decreases |ins| - n
  {
    if n + 1 < |ins| { CellsAt(ins, n + 1); }
  }

  lemma {:induction false} RunSnoc(env: Env, code: seq<cell>, s: State, n: nat)
    ensures Run(env, code, s, n + 1) ==
      (match Run(env, code, s, n) case Running(t) => Step(env, code, t) case o => o)
    decreases n
  {
    hide Step;
    if n > 0 {
      if t :| Step(env, code, s) == Running(t) { RunSnoc(env, code, t, n - 1); }
    } else {
      assert forall t :: Run(env, code, t, 0) == Running(t);
    }
  }

  /** The instruction at a cell of the code. */
  lemma StepIs(env: Env, code: seq<cell>, s: State, k: nat, i: Instr)
    requires Encoded(i) && s.cip == CELL * k && k < |code| && code[k] == i.op && (i.J? ==> k + 1 < |code| && code[k+1] == i.arg)
    requires Straight(i.op) || Branch(i.op)
    ensures Step(env, code, s) ==
      Execute(env, i.op, if i.J? then i.arg else 0, s.(cip := CELL * (k + if i.J? then 2 else 1)), CELL * |code|)
  {
    hide Execute;
    assert At(code, s.cip) == code[k];
    if i.J? { assert At(code, s.cip + CELL) == code[k+1]; }
  }

  /** A sequence in the code does what it does by itself, and ends where it continues. */
  lemma {:induction false} PlayedInCode(env: Env, code: seq<cell>, ins: seq<Instr>, i: nat, s: State, n: nat)
    requires LiesAt(code, ins, i) && Sequence(ins) && n <= |ins| && s.cip == CELL * i
    ensures var end := CELL * (i + |Cells(ins, |ins|)|);
      match Played(env, ins, s.(cip := end), n)
      case Running(t) =>
        && Run(env, code, s, n) == Running(if n == |ins| then t else t.(cip := CELL * (i + |Cells(ins, n)|)))
        && (n < |ins| ==> t.cip == end)
      case Stopped(err, _) => Run(env, code, s, n).Stopped? && Run(env, code, s, n).err == err
      case Returned(err, _) => Run(env, code, s, n).Returned? && Run(env, code, s, n).err == err
      case Fault => Run(env, code, s, n) == Fault
    decreases n
  {
    hide Step, Execute, Run, Straight, Branch, Encoded;
    var end := CELL * (i + |Cells(ins, |ins|)|);
    if n == 0 {
      assert Run(env, code, s, 0) == Running(s) by { NothingRun(env, code, s); }
      assert ins == [] ==> end == s.cip;
    } else {
      PlayedInCode(env, code, ins, i, s, n - 1);
      RunSnoc(env, code, s, n - 1);
      CellsAt(ins, n - 1);
      var x, k := ins[n-1], i + |Cells(ins, n - 1)|;
      if t :| Played(env, ins, s.(cip := end), n - 1) == Running(t) {
        assert code[k] == Cells(ins, |ins|)[k - i] && (x.J? ==> code[k+1] == Cells(ins, |ins|)[k + 1 - i]);
        assert Encoded(x) && (Straight(x.op) || (n == |ins| && Branch(x.op)));
        StepIs(env, code, t.(cip := CELL * k), k, x);
        OneInCode(env, x, t, CELL * (i + |Cells(ins, n)|), CELL * |code|);
      }
    }
  }

  lemma NothingRun(env: Env, code: seq<cell>, s: State)
    ensures Run(env, code, s, 0) == Running(s)
  {
  }

  /** An instruction with the address behind it, and with the address where its sequence ends. */
  lemma OneInCode(env: Env, i: Instr, t: State, next: int, codesize: nat)
    requires Straight(i.op) || (Branch(i.op) && next == t.cip)
    ensures var o, o' := Do(env, i, t), Execute(env, i.op, if i.J? then i.arg else 0, t.(cip := next), codesize);
      match o
      case Running(u) => o' == Running(if Straight(i.op) then u.(cip := next) else u) && (Straight(i.op) ==> u.cip == t.cip)
      case Stopped(err, _) => o'.Stopped? && o'.err == err
      case Returned(err, _) => o'.Returned? && o'.err == err
      case Fault => o' == Fault
  {
    hide Execute, Straight, Branch;
    var arg := if i.J? then i.arg else 0;
    if Straight(i.op) {
      StraightMoves(env, i.op, arg, t, next, codesize);
    } else {
      BranchStays(env, i.op, arg, t, codesize);
    }
  }

  lemma BranchStays(env: Env, op: cell, arg: cell, s: State, codesize: nat)
    requires Branch(op)
    ensures Execute(env, op, arg, s, codesize) == Execute(env, op, arg, s, 0)
  {
    hide Jumps;
  }

  /** Code with the shorter sequence in place of the longer one, so that both end at the same
      address: from there on the two runs are in states that agree. */
  lemma ReplacedInCode(env: Env, r: Rule, code: seq<cell>, code': seq<cell>, i: nat, i': nat, s: State)
    requires Sequence(r.find) && Sequence(r.replace) && LiesAt(code, r.find, i) && LiesAt(code', r.replace, i')
    requires i + |Cells(r.find, |r.find|)| == i' + |Cells(r.replace, |r.replace|)|
    requires Preserves(env, s.(cip := CELL * (i + |Cells(r.find, |r.find|)|)), r)
    ensures Same(Run(env, code, s.(cip := CELL * i), |r.find|), Run(env, code', s.(cip := CELL * i'), |r.replace|), r.pri, r.alt)
  {
    hide Run, Played, Sequence, LiesAt;
    PlayedInCode(env, code, r.find, i, s.(cip := CELL * i), |r.find|);
    PlayedInCode(env, code', r.replace, i', s.(cip := CELL * i'), |r.replace|);
    var end := CELL * (i + |Cells(r.find, |r.find|)|);
    assert s.(cip := CELL * i).(cip := end) == s.(cip := end) == s.(cip := CELL * i').(cip := end);
  }

  predicate Ordinary(i: Instr) { Encoded(i) && Straight(i.op) }

  /** All the rules are made of instructions in the form that the loader expects. */
  lemma FetchesEncoded(k: Source, p: cell)
    ensures Ordinary(FetchPri(k, p)) && Ordinary(FetchAlt(k, p)) && Ordinary(PushOf(k, p))
  {
    match k case Global => case Local => case Constant => case Address =>
  }

  lemma PlacesEncoded(k: Place, up: bool, p: cell)
    ensures Ordinary(Load(k, p)) && Ordinary(Count(k, up, p)) && Ordinary(StoreOf(k, p)) && Ordinary(ZeroAt(k, p))
  {
  }

  lemma MovesEncoded()
    ensures Ordinary(I(PUSH_PRI)) && Ordinary(I(PUSH_ALT)) && Ordinary(I(POP_ALT)) && Ordinary(I(MOVE_PRI)) && Ordinary(I(MOVE_ALT))
    ensures Ordinary(I(XCHG)) && Ordinary(I(SWAP_ALT)) && Ordinary(I(LOAD_I)) && Ordinary(I(ZERO_PRI)) && Ordinary(I(ZERO_ALT))
    ensures Ordinary(I(ADD)) && Ordinary(I(SUB)) && Ordinary(I(SUB_ALT)) && Ordinary(I(AND)) && Ordinary(I(EQ))
  {
  }

  lemma OperandsEncoded(load: bool, p: cell)
    ensures Ordinary(Index(load)) && Ordinary(Scale()) && Ordinary(J(BOUNDS, p)) && Ordinary(J(ADD_C, p))
    ensures Ordinary(J(EQ_C_PRI, p)) && Ordinary(J(STACK, p))
  {
  }

  lemma TestsEncoded(c: Comparison, p: cell)
    ensures Ordinary(Compare(c)) && Encoded(JumpIf(c, p)) && Branch(JumpIf(c, p).op)
    ensures Encoded(J(JZER, p)) && Branch(JZER) && Encoded(J(JNZ, p)) && Branch(JNZ)
  {
  }
}

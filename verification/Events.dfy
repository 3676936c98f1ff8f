/**
  Filtering and running message events (CEvent.cpp, `EventsMngr`).

  A message arrives in pieces: its type, then one parameter at a time.  Every registered event
  that can no longer fire is marked as done, parameter by parameter; at the end the events
  without a mark fire and all marks are cleared.  An event can send further messages, which
  are parsed and executed before it returns.
*/
module Events {
  import opened Wrappers

  datatype Value = IntValue(i: int) | FloatValue(f: real) | StringValue(s: string)

  /** A filter: the number of the parameter, the operator and the operand in its three forms. */
  datatype Cond = Cond(paramId: int, op: char, iValue: int, fValue: real, sValue: string)

  datatype Player = NoPlayer | Player(isBot: bool, isAlive: bool)

  /** A registered event; `executable` is that of its plugin's function. */
  datatype Event = Event(
    client: bool, world: bool, once: bool, dead: bool, alive: bool, player: bool, bot: bool,
    executable: bool, active: bool, conds: seq<Cond>, stamp: real, done: bool)

  datatype Message = Message(msgType: int, time: real, player: Player, index: int, values: seq<Value>)

  /** What the callback of an event sends, given its message type, number and arguments. */
  type Script = (int, nat, seq<Value>) -> seq<Message>

  const INITIAL_PARSEVAULT_SIZE := 32

  // ----- what a filter means -----

  /** Two 32-bit integers have a set bit in common. */
  predicate SharesBit(a: nat, b: nat)
    decreases a
  {
    a > 0 && ((a % 2 == 1 && b % 2 == 1) || SharesBit(a / 2, b / 2))
  }

  predicate OccursAt(s: string, t: string, i: nat) {
    i + |t| <= |s| && s[i..i + |t|] == t
  }

  predicate Contains(s: string, t: string) {
    exists i :: 0 <= i <= |s| && OccursAt(s, t, i)
  }

  predicate Holds(c: Cond, v: Value) {
    match v
    case IntValue(i) =>
      (c.op == '=' && c.iValue == i) || (c.op == '!' && c.iValue != i) || (c.op == '<' && i < c.iValue)
      || (c.op == '>' && i > c.iValue) || (c.op == '&' && SharesBit(i % 0x1_0000_0000, c.iValue % 0x1_0000_0000))
    case FloatValue(f) =>
      (c.op == '=' && c.fValue == f) || (c.op == '!' && c.fValue != f) || (c.op == '<' && f < c.fValue)
      || (c.op == '>' && f > c.fValue)
    case StringValue(s) =>
      (c.op == '=' && s == c.sValue) || (c.op == '!' && s != c.sValue) || (c.op == '&' && Contains(s, c.sValue))
  }

  /** Parameter `pos` has no condition, or meets at least one of its conditions. */
  predicate Meets(conds: seq<Cond>, pos: int, v: Value) {
    (forall c <- conds :: c.paramId != pos) || exists c <- conds :: c.paramId == pos && Holds(c, v)
  }

  predicate Enters(e: Event, m: Message) {
    && e.executable
    && (match m.player
        case NoPlayer => e.world
        case Player(isBot, isAlive) => e.client && (if isBot then e.bot else e.player) && (if isAlive then e.alive else e.dead))
    && !(e.once && e.stamp == m.time)
  }

  /** The declarative meaning: an event takes a message if its flags do and every parameter
      meets its conditions. */
  predicate Passes(e: Event, m: Message) {
    Enters(e, m) && forall p :: 0 <= p < |m.values| ==> Meets(e.conds, p + 1, m.values[p])
  }

  // ----- what a registration asks for -----

  predicate Given(flags: nat, bit: nat)
    requires bit > 0
  {
    flags / bit % 2 == 1
  }

  /** The constructor of ClEvent; for events without the client flag the source leaves `player`
      and `bot` open, which are not looked at then. */
  function NewEvent(flags: nat, executable: bool): Event {
    var client := Given(flags, 2);
    var life, kind := Given(flags, 8) || Given(flags, 16), Given(flags, 32) || Given(flags, 64);
    Event(client, Given(flags, 1), Given(flags, 4),
          life ==> Given(flags, 8), life ==> Given(flags, 16),
          client && (kind ==> Given(flags, 32)), client && (kind ==> Given(flags, 64)),
          executable, true, [], 0.0, false)
  }

  /** What the flags of a registration mean, as they are documented for plugins: a (1) for messages
      to all, b (2) to one player, c (4) once at a time, d (8) to dead and e (16) to living ones,
      f (32) to humans and g (64) to bots; without d and e to both, and without f and g. */
  lemma EntersByFlags(flags: nat, m: Message, stamp: real)
    ensures Enters(NewEvent(flags, true).(stamp := stamp), m) <==>
      && (match m.player
          case NoPlayer => flags % 2 == 1
          case Player(isBot, isAlive) =>
            && flags / 2 % 2 == 1
            && (flags / 8 % 4 == 0 || (if isAlive then flags / 16 % 2 == 1 else flags / 8 % 2 == 1))
            && (flags / 32 % 4 == 0 || (if isBot then flags / 64 % 2 == 1 else flags / 32 % 2 == 1)))
      && (flags / 4 % 2 == 1 ==> stamp != m.time)
    ensures !Enters(NewEvent(flags, false).(stamp := stamp), m)
  {
    TwoBits(flags, 8);
    TwoBits(flags, 32);
  }

  lemma TwoBits(flags: nat, bit: nat)
    requires bit == 8 || bit == 32
    ensures flags / bit % 4 == 0 <==> !Given(flags, bit) && !Given(flags, 2 * bit)
  {
    var q := flags / bit;
    assert flags / (2 * bit) == q / 2;
    assert q == 2 * (q / 2) + q % 2;
  }

  // ----- filters -----

  predicate IsDigit(c: char) { '0' <= c <= '9' }

  /** How many digits a text begins with. */
  function Digits(s: string): (n: nat)
    ensures n <= |s| && (forall k :: 0 <= k < n ==> IsDigit(s[k])) && (n < |s| ==> !IsDigit(s[n]))
  {
    if s == [] || !IsDigit(s[0]) then 0 else 1 + Digits(s[1..])
  }

  function Number(s: string): nat
    requires forall k :: 0 <= k < |s| ==> IsDigit(s[k])
  {
    if s == [] then 0 else
      assert IsDigit(s[|s|-1]);
      10 * Number(s[..|s|-1]) + (s[|s|-1] as int - '0' as int)
  }

  /** atoi, without white space in front */
  function Atoi(s: string): int {
    if s != [] && s[0] == '-' then -(Number(s[1..][..Digits(s[1..])]) as int)
    else if s != [] && s[0] == '+' then Number(s[1..][..Digits(s[1..])])
    else Number(s[..Digits(s)])
  }

  /** registerFilter: a parameter number, an operator and an operand; None is ignored. */
  function ParseFilter(filter: string, atof: string -> real): Option<Cond> {
    var n := Digits(filter);
    if n == |filter| then None
    else
      var value := filter[n + 1..];
      Some(Cond(Atoi(filter[..n]), filter[n], Atoi(value), atof(value), value))
  }

  /** The decimal digits of a number. */
  function Decimal(n: nat): (s: string)
    ensures s != [] && forall k :: 0 <= k < |s| ==> IsDigit(s[k])
  {
    var digit := [('0' as int + n % 10) as char];
    if n < 10 then digit else Decimal(n / 10) + digit
  }

  function Signed(n: int): string { if n < 0 then "-" + Decimal(-n) else Decimal(n) }

  lemma {:induction false} DecimalNumber(n: nat)
    ensures Number(Decimal(n)) == n
  {
    if n >= 10 {
      DecimalNumber(n / 10);
      var digit := [('0' as int + n % 10) as char];
      assert (Decimal(n / 10) + digit)[..|Decimal(n / 10)|] == Decimal(n / 10);
    } else {
      assert Decimal(n)[..0] == [];
    }
  }

  lemma {:induction false} DigitsOf(s: string, rest: string)
    requires (forall k :: 0 <= k < |s| ==> IsDigit(s[k])) && (rest != [] ==> !IsDigit(rest[0]))
    ensures Digits(s + rest) == |s|
  {
    if s == [] {
      assert s + rest == rest;
    } else {
      assert (s + rest)[1..] == s[1..] + rest;
      DigitsOf(s[1..], rest);
    }
  }

  lemma AtoiOf(n: int)
    ensures Atoi(Signed(n)) == n
  {
    var s := Decimal(if n < 0 then -n else n);
    DecimalNumber(if n < 0 then -n else n);
    WholeNumber(s);
    if n < 0 {
      DigitsOf(s, []);
      assert s + [] == s && s[..|s|] == s && ("-" + s)[1..] == s;
    }
  }

  /** A filter such as "2>-5" is understood as written. */
  lemma FilterParsed(p: nat, op: char, operand: string, atof: string -> real)
    requires !IsDigit(op)
    ensures ParseFilter(Decimal(p) + [op] + operand, atof) == Some(Cond(p, op, Atoi(operand), atof(operand), operand))
  {
    hide Decimal, Digits, Number;
    var s := Decimal(p);
    DigitsOf(s, [op] + operand);
    FilterCut(s, op, operand);
    WholeNumber(s);
    DecimalNumber(p);
  }

  lemma FilterCut(s: string, op: char, operand: string)
    ensures var filter := s + [op] + operand;
      && filter == s + ([op] + operand) && filter[..|s|] == s && filter[|s|] == op && filter[|s| + 1..] == operand
  {
  }

  lemma DigitsUnique(s: string, n: nat)
    requires n <= |s| && (forall k :: 0 <= k < n ==> IsDigit(s[k])) && (n < |s| ==> !IsDigit(s[n]))
    ensures Digits(s) == n
  {
    DigitsOf(s[..n], s[n..]);
    assert s[..n] + s[n..] == s;
  }

  /** A text of digits is a number. */
  lemma WholeNumber(s: string)
    requires s != [] && forall k :: 0 <= k < |s| ==> IsDigit(s[k])
    ensures Atoi(s) == Number(s)
  {
    DigitsOf(s, []);
    assert s + [] == s && s[..|s|] == s && IsDigit(s[0]);
  }

  predicate Bit(x: nat, k: nat) {
    if k == 0 then x % 2 == 1 else Bit(x / 2, k - 1)
  }

  lemma SharesBitMeans(a: nat, b: nat)
    ensures SharesBit(a, b) ==> exists k: nat :: Bit(a, k) && Bit(b, k)
    ensures (exists k: nat :: Bit(a, k) && Bit(b, k)) ==> SharesBit(a, b)
  {
    if SharesBit(a, b) {
      var k := SharedBit(a, b);
      assert Bit(a, k) && Bit(b, k);
    }
    if exists k: nat :: Bit(a, k) && Bit(b, k) {
      var k: nat :| Bit(a, k) && Bit(b, k);
      BitShared(a, b, k);
    }
  }

  lemma {:induction false} SharedBit(a: nat, b: nat) returns (k: nat)
    requires SharesBit(a, b)
    ensures Bit(a, k) && Bit(b, k)
    decreases a
  {
    k := 0;
    if a % 2 == 0 || b % 2 == 0 {
      k := SharedBit(a / 2, b / 2);
      k := k + 1;
    }
  }

  lemma {:induction false} BitShared(a: nat, b: nat, k: nat)
    requires Bit(a, k) && Bit(b, k)
    ensures SharesBit(a, b)
    decreases k
  {
    if k > 0 {
      BitShared(a / 2, b / 2, k - 1);
      if a == 0 { NoBits(k); }
    }
  }

  lemma {:induction false} NoBits(k: nat)
    ensures !Bit(0, k)
  {
    if k > 0 { NoBits(k - 1); }
  }

  lemma ContainsMeans(s: string, t: string)
    ensures Contains(s, t) <==> exists a, b :: s == a + t + b
  {
    if Contains(s, t) {
      var i :| 0 <= i <= |s| && OccursAt(s, t, i);
      assert s == s[..i] + t + s[i + |t|..];
    }
    if a, b :| s == a + t + b {
      assert OccursAt(s, t, |a|);
    }
  }

  /** What a filter on an integer parameter admits, by its operator. */
  lemma IntegerFilter(p: nat, op: char, n: int, atof: string -> real, v: int)
    requires !IsDigit(op)
    ensures var filter := ParseFilter(Decimal(p) + [op] + Signed(n), atof);
      && filter.Some? && filter.value.paramId == p
      && (Holds(filter.value, IntValue(v)) <==>
            if op == '=' then v == n
            else if op == '!' then v != n
            else if op == '<' then v < n
            else if op == '>' then v > n
            else op == '&' && exists k: nat :: Bit(v % 0x1_0000_0000, k) && Bit(n % 0x1_0000_0000, k))
  {
    FilterParsed(p, op, Signed(n), atof);
    AtoiOf(n);
    SharesBitMeans(v % 0x1_0000_0000, n % 0x1_0000_0000);
  }

  /** The same for a string parameter, and for a float one with the operand as `atof` reads it. */
  lemma TextFilter(p: nat, op: char, operand: string, atof: string -> real, text: string, f: real)
    requires !IsDigit(op)
    ensures var filter := ParseFilter(Decimal(p) + [op] + operand, atof);
      && filter.Some? && filter.value.paramId == p
      && (Holds(filter.value, StringValue(text)) <==>
            if op == '=' then text == operand
            else if op == '!' then text != operand
            else op == '&' && exists a, b :: text == a + operand + b)
      && (Holds(filter.value, FloatValue(f)) <==>
            if op == '=' then f == atof(operand)
            else if op == '!' then f != atof(operand)
            else if op == '<' then f < atof(operand)
            else op == '>' && f > atof(operand))
  {
    FilterParsed(p, op, operand, atof);
    ContainsMeans(text, operand);
  }

  /** Several filters on one parameter are alternatives, filters on different ones are all needed. */
  lemma TwoFilters(c: Cond, d: Cond, pos: int, v: Value)
    ensures Meets([], pos, v)
    ensures Meets([c], pos, v) <==> (c.paramId == pos ==> Holds(c, v))
    ensures Meets([c, d], pos, v) <==>
      if c.paramId == d.paramId then (c.paramId == pos ==> Holds(c, v) || Holds(d, v))
      else Meets([c], pos, v) && Meets([d], pos, v)
  {
    hide Holds;
    assert c in [c] && c in [c, d] && d in [c, d] && d in [d];
  }

  function Arguments(m: Message): seq<Value> { [IntValue(m.index)] + m.values }

  // ----- the marks -----

  function Mark(e: Event, out: bool): Event { e.(done := e.done || out) }

  function MarkEntry(es: seq<Event>, m: Message): (r: seq<Event>)
    ensures |r| == |es|
  {
    seq(|es|, i requires 0 <= i < |es| => Mark(es[i], !Enters(es[i], m)))
  }

  function MarkParam(es: seq<Event>, pos: int, v: Value): (r: seq<Event>)
    ensures |r| == |es|
  {
    seq(|es|, i requires 0 <= i < |es| => Mark(es[i], !Meets(es[i].conds, pos, v)))
  }

  /** The marks after the first `n` parameters. */
  function Marked(es: seq<Event>, m: Message, n: nat): (r: seq<Event>)
    requires n <= |m.values|
    ensures |r| == |es|
  {
    if n == 0 then MarkEntry(es, m) else MarkParam(Marked(es, m, n - 1), n, m.values[n-1])
  }

  predicate AllDone(es: seq<Event>) { forall e <- es :: e.done }

  predicate AllClear(es: seq<Event>) { forall e <- es :: !e.done }

  /** Incremental filtering computes the declarative meaning, on top of the marks that are
      there when the message begins. */
  lemma {:induction false} MarkedMeansRejected(es: seq<Event>, m: Message, n: nat, i: nat)
    requires n <= |m.values| && i < |es|
    ensures Marked(es, m, n)[i] ==
      es[i].(done := es[i].done || !(Enters(es[i], m) && forall p :: 0 <= p < n ==> Meets(es[i].conds, p + 1, m.values[p])))
  {
    hide Enters, Meets;
    if n > 0 { MarkedMeansRejected(es, m, n - 1, i); }
  }

  lemma {:induction false} MarkedAllDone(es: seq<Event>, m: Message, n: nat)
    requires n <= |m.values| && AllDone(MarkEntry(es, m))
    ensures Marked(es, m, n) == MarkEntry(es, m)
  {
    if n > 0 {
      MarkedAllDone(es, m, n - 1);
      var r := MarkEntry(es, m);
      assert forall i :: 0 <= i < |r| ==> r[i] in r;
    }
  }

  lemma MarkedFirst(es: seq<Event>, m: Message)
    ensures Marked(es, m, 0) == MarkEntry(es, m)
  {
  }

  lemma MarkedNext(es: seq<Event>, m: Message, n: nat)
    requires n < |m.values|
    ensures Marked(es, m, n + 1) == MarkParam(Marked(es, m, n), n + 1, m.values[n])
    ensures AllDone(MarkEntry(es, m)) ==> Marked(es, m, n + 1) == Marked(es, m, n)
  {
    if AllDone(MarkEntry(es, m)) {
      MarkedAllDone(es, m, n);
      MarkedAllDone(es, m, n + 1);
    }
  }

  lemma UpdateTwice(all: seq<seq<Event>>, T: int, es: seq<Event>, es': seq<Event>)
    requires 0 <= T < |all|
    ensures all[T := es][T] == es && all[T := es][T := es'] == all[T := es']
  {
  }

  // ----- which events fire -----

  /** Of the first `n` events those that fire, given the marks when the execution begins.
      After the callback of event `reset` a message of the same type has been executed, which
      clears all marks. */
  function Firing(es: seq<Event>, n: nat, reset: int): seq<nat>
    requires n <= |es|
  {
    if n == 0 then [] else
      var fires: seq<nat> := if es[n-1].active && (reset < n - 1 || !es[n-1].done) then [n - 1] else [];
      Firing(es, n - 1, reset) + fires
  }

  predicate Fires(es: seq<Event>, m: Message, i: nat)
    requires i < |es|
  {
    es[i].active && Passes(es[i], m)
  }

  lemma {:induction false} FiringMembers(es: seq<Event>, n: nat, reset: int, k: nat)
    requires k < |es| && n <= |es|
    ensures k in Firing(es, n, reset) <==> k < n && es[k].active && (reset < k || !es[k].done)
  {
    if n > 0 { FiringMembers(es, n - 1, reset, k); }
  }

  /** What fires up to an event does not depend on later resets. */
  lemma {:induction false} FiringBeforeReset(es: seq<Event>, n: nat, reset: int, reset': int)
    requires n <= |es| && n - 1 <= reset && n - 1 <= reset'
    ensures Firing(es, n, reset) == Firing(es, n, reset')
  {
    if n > 0 { FiringBeforeReset(es, n - 1, reset, reset'); }
  }

  /** If no message of the same type is executed meanwhile (`reset` beyond the last event), a
      message fires exactly the active events that take it and had no mark when it began. */
  lemma FiresAsDeclared(es: seq<Event>, m: Message, k: nat)
    requires k < |es|
    ensures k in Firing(Marked(es, m, |m.values|), |es|, |es|) <==> !es[k].done && Fires(es, m, k)
  {
    MarkedMeansRejected(es, m, |m.values|, k);
    FiringMembers(Marked(es, m, |m.values|), |es|, |es|, k);
  }

  /** When the callback of event `reset` sends a message of the same type, the outer message
      fires as declared exactly if no active event after it has been rejected. */
  lemma NestedSameType(es: seq<Event>, m: Message, reset: nat)
    requires AllClear(es) && reset < |es|
    ensures var marked := Marked(es, m, |m.values|);
      (forall k :: 0 <= k < |es| ==> (k in Firing(marked, |es|, reset) <==> Fires(es, m, k)))
      <==> (forall k :: reset < k < |es| && es[k].active ==> Passes(es[k], m))
  {
    var marked := Marked(es, m, |m.values|);
    forall k | 0 <= k < |es|
      ensures (k in Firing(marked, |es|, reset) <==> Fires(es, m, k)) <==>
              (reset < k && es[k].active ==> Passes(es[k], m))
    {
      assert es[k] in es;
      MarkedMeansRejected(es, m, |m.values|, k);
      FiringMembers(marked, |es|, reset, k);
    }
  }

  // ----- whole messages, nested ones included -----

  /** One callback: how deep its message is nested, the event, and the arguments that it sees. */
  datatype Call = Call(depth: nat, msgType: int, event: nat, args: seq<Value>)

  /** The registered events, the time of the last message, the callbacks and the types of the
      messages executed so far.  `defined` tells that no message had a type just behind the table
      of events, which the source reads. */
  datatype Mngr = Mngr(events: seq<seq<Event>>, timer: real, calls: seq<Call>, executed: seq<int>, defined: bool)

  predicate SameShape(a: Mngr, b: Mngr) {
    |a.events| == |b.events| && forall t :: 0 <= t < |a.events| ==> |a.events[t]| == |b.events[t]|
  }

  function WithEvent(s: Mngr, T: int, i: nat, e: Event): (r: Mngr)
    requires 0 <= T < |s.events| && i < |s.events[T]|
    ensures SameShape(s, r)
  {
    s.(events := s.events[T := s.events[T][i := e]])
  }

  /** A message from its first byte to its last: parserInit, parseValue for every parameter,
      executeEvents.  A callback sends messages as long as `fuel` lasts. */
  function Sent(s: Mngr, m: Message, depth: nat, script: Script, fuel: nat): (r: Mngr)
    ensures SameShape(s, r)
    decreases fuel, 3
  {
    var T := m.msgType;
    if T == |s.events| then s.(defined := false)
    else if T < 0 || T > |s.events| || s.events[T] == [] then s
    else Visited(Begun(s, m), T, 0, Arguments(m), depth, script, fuel)
  }

  /** The state when the execution of a message begins. */
  function Begun(s: Mngr, m: Message): (r: Mngr)
    requires 0 <= m.msgType < |s.events|
    ensures SameShape(s, r)
  {
    var T := m.msgType;
    s.(events := s.events[T := Marked(s.events[T], m, |m.values|)], timer := m.time, executed := s.executed + [T])
  }

  /** The loop of executeEvents, from event `i` of type `T` on. */
  function Visited(s: Mngr, T: int, i: nat, args: seq<Value>, depth: nat, script: Script, fuel: nat): (r: Mngr)
    requires 0 <= T < |s.events| && i <= |s.events[T]|
    ensures SameShape(s, r)
    decreases fuel, 2, |s.events[T]| - i + 1
  {
    if i == |s.events[T]| then s
    else Visited(VisitedOne(s, T, i, args, depth, script, fuel), T, i + 1, args, depth, script, fuel)
  }

  /** One round of the loop. */
  function VisitedOne(s: Mngr, T: int, i: nat, args: seq<Value>, depth: nat, script: Script, fuel: nat): (r: Mngr)
    requires 0 <= T < |s.events| && i < |s.events[T]|
    ensures SameShape(s, r)
    decreases fuel, 2, 0
  {
    var e := s.events[T][i];
    if e.done then WithEvent(s, T, i, e.(done := false))
    else
      var stamped := WithEvent(s, T, i, e.(stamp := s.timer));
      if e.active then CalledBack(stamped, T, i, args, depth, script, fuel) else stamped
  }

  /** One callback, with the messages that it sends. */
  function CalledBack(s: Mngr, T: int, i: nat, args: seq<Value>, depth: nat, script: Script, fuel: nat): (r: Mngr)
    ensures SameShape(s, r)
    decreases fuel, 1
  {
    var called := s.(calls := s.calls + [Call(depth, T, i, args)]);
    if fuel == 0 then called else SentAll(called, script(T, i, args), depth + 1, script, fuel - 1)
  }

  function SentAll(s: Mngr, ms: seq<Message>, depth: nat, script: Script, fuel: nat): (r: Mngr)
    ensures SameShape(s, r)
    decreases fuel, 4, |ms|
  {
    if ms == [] then s else SentAll(Sent(s, ms[0], depth, script, fuel), ms[1..], depth, script, fuel)
  }

  /** The callbacks at one depth. */
  function AtDepth(calls: seq<Call>, depth: nat): seq<Call> {
    if calls == [] then [] else
      var last := calls[|calls|-1];
      AtDepth(calls[..|calls|-1], depth) + if last.depth == depth then [last] else []
  }

  predicate Deeper(calls: seq<Call>, depth: nat) { forall i :: 0 <= i < |calls| ==> calls[i].depth >= depth }

  lemma {:induction false} AtDepthMore(a: seq<Call>, b: seq<Call>, depth: nat)
    ensures AtDepth(a + b, depth) == AtDepth(a, depth) + AtDepth(b, depth)
  {
    hide AtDepth;
    if b == [] {
      assert a + b == a;
      NoCalls(depth);
    } else {
      var front, last := b[..|b|-1], b[|b|-1];
      assert b == front + [last] && a + b == (a + front) + [last];
      AtDepthMore(a, front, depth);
      AtDepthSnoc(a + front, last, depth);
      AtDepthSnoc(front, last, depth);
    }
  }

  lemma NoCalls(depth: nat)
    ensures AtDepth([], depth) == []
  {
  }

  lemma AtDepthSnoc(calls: seq<Call>, call: Call, depth: nat)
    ensures AtDepth(calls + [call], depth) == AtDepth(calls, depth) + if call.depth == depth then [call] else []
  {
    assert (calls + [call])[..|calls|] == calls;
  }

  lemma {:induction false} NoneAtDepth(calls: seq<Call>, depth: nat)
    requires Deeper(calls, depth + 1)
    ensures AtDepth(calls, depth) == []
  {
    if calls != [] { NoneAtDepth(calls[..|calls|-1], depth); }
  }

  /** The callbacks of the events with the given numbers, all with the same arguments. */
  function CallsOf(T: int, events: seq<nat>, args: seq<Value>, depth: nat): (r: seq<Call>)
    ensures |r| == |events|
  {
    seq(|events|, j requires 0 <= j < |events| => Call(depth, T, events[j], args))
  }

  /** `more` callbacks, none of them less deep than `depth`, have been made and messages of the
      given types have been executed between two states. */
  predicate Added(s: Mngr, r: Mngr, more: seq<Call>, depth: nat, types: set<int>) {
    r.calls == s.calls + more && Deeper(more, depth) && s.executed <= r.executed && types == Since(s, r)
  }

  /** The types of the messages that have been executed between two states. */
  function Since(s: Mngr, r: Mngr): set<int>
    requires s.executed <= r.executed
  {
    set t | t in r.executed[|s.executed|..]
  }

  lemma SinceTwice(a: Mngr, b: Mngr, c: Mngr)
    requires a.executed <= b.executed <= c.executed
    ensures Since(a, c) == Since(a, b) + Since(b, c)
  {
    assert c.executed[|a.executed|..] == b.executed[|a.executed|..] + c.executed[|b.executed|..];
  }

  lemma AddedTwice(a: Mngr, b: Mngr, c: Mngr, first: seq<Call>, second: seq<Call>, depth: nat, types: set<int>, types': set<int>)
    requires Added(a, b, first, depth, types) && Added(b, c, second, depth, types')
    ensures Added(a, c, first + second, depth, types + types')
  {
    SinceTwice(a, b, c);
  }

  /** The same events, up to marks and time stamps. */
  predicate SameEvents(es: seq<Event>, es': seq<Event>) {
    |es| == |es'| && forall i :: 0 <= i < |es| ==> es'[i] == es[i].(done := es'[i].done, stamp := es'[i].stamp)
  }

  /** What messages of the given types leave of the events: marks are cleared, time stamps
      change; events of other types stay as they are. */
  predicate Settled(before: seq<seq<Event>>, after: seq<seq<Event>>, types: set<int>) {
    && |after| == |before|
    && forall t :: 0 <= t < |before| ==>
         if t in types then SameEvents(before[t], after[t]) && AllClear(after[t]) else after[t] == before[t]
  }

  /** Half-way through the events of type `T`, of which `i` have been visited: `es` are these
      events when the execution began, the other arguments as in ExecuteEvents. */
  predicate HalfWay(before: seq<seq<Event>>, now: seq<seq<Event>>, T: int, i: nat, types: set<int>, reset: int)
    requires 0 <= T < |before|
  {
    && |now| == |before| && SameEvents(before[T], now[T]) && i <= |before[T]|
    && (forall t :: 0 <= t < |before| && t != T ==>
          if t in types then SameEvents(before[t], now[t]) && AllClear(now[t]) else now[t] == before[t])
    && if T in types then 0 <= reset < i && AllClear(now[T])
       else reset == |before[T]| && forall j :: 0 <= j < |before[T]| ==> if j < i then !now[T][j].done else now[T][j] == before[T][j]
  }

  /** One event that is not called. */
  lemma VisitStep(before: seq<seq<Event>>, now: seq<seq<Event>>, T: int, i: nat, types: set<int>, reset: int, e: Event)
    requires 0 <= T < |before| && HalfWay(before, now, T, i, types, reset) && i < |before[T]|
    requires e == now[T][i].(done := false, stamp := e.stamp)
    ensures HalfWay(before, now[T := now[T][i := e]], T, i + 1, types, reset)
  {
    var es := now[T][i := e];
    if T in types {
      forall x | x in es
        ensures !x.done
      {
        assert x == e || x in now[T];
      }
    }
  }

  /** One call, during which the messages `nested` are executed. */
  lemma CallStep(before: seq<seq<Event>>, now: seq<seq<Event>>, after: seq<seq<Event>>, T: int, i: nat,
                        types: set<int>, reset: int, nested: set<int>)
    requires 0 <= T < |before| && 0 < i && HalfWay(before, now, T, i, types, reset) && Settled(now, after, nested)
    ensures HalfWay(before, after, T, i, types + nested, if T in nested && T !in types then i - 1 else reset)
  {
  }

  lemma AllVisited(before: seq<seq<Event>>, now: seq<seq<Event>>, T: int, types: set<int>, reset: int)
    requires 0 <= T < |before| && HalfWay(before, now, T, |before[T]|, types, reset)
    ensures Settled(before, now, types + {T})
    ensures if T in types then 0 <= reset < |before[T]| else reset == |before[T]|
  {
    if T !in types {
      forall x | x in now[T]
        ensures !x.done
      {
      }
    }
  }

  lemma NothingVisited(before: seq<seq<Event>>, T: int)
    requires 0 <= T < |before|
    ensures HalfWay(before, before, T, 0, {}, |before[T]|) && Firing(before[T], 0, |before[T]|) == []
  {
  }

  /** What the visit of event `i` depends on. */
  lemma NextVisited(before: seq<seq<Event>>, now: seq<seq<Event>>, T: int, i: nat, types: set<int>, reset: int)
    requires 0 <= T < |before| && HalfWay(before, now, T, i, types, reset) && i < |before[T]|
    ensures |now| == |before| && |now[T]| == |before[T]| && now[T][i].active == before[T][i].active
    ensures now[T][i].done <==> before[T][i].done && reset >= i
    ensures reset >= i ==> reset == |before[T]|
    ensures T !in types ==> reset == |before[T]|
    ensures Firing(before[T], i + 1, reset) ==
      Firing(before[T], i, reset) + if now[T][i].active && !now[T][i].done then [i as nat] else []
    ensures AllDone(before[T]) && types == {} ==> now[T][i].done
  {
    if T in types { assert now[T][i] in now[T]; }
    assert before[T][i] in before[T];
  }

  lemma SettledNothing(before: seq<seq<Event>>)
    ensures Settled(before, before, {})
  {
  }

  lemma SettledTwice(before: seq<seq<Event>>, between: seq<seq<Event>>, after: seq<seq<Event>>, first: set<int>, second: set<int>)
    requires Settled(before, between, first) && Settled(between, after, second)
    ensures Settled(before, after, first + second)
  {
  }

  /** The marks that parsing sets are cleared by the execution. */
  lemma SettledMessage(before: seq<seq<Event>>, after: seq<seq<Event>>, T: int, marked: seq<Event>, types: set<int>)
    requires 0 <= T < |before| && SameEvents(before[T], marked)
    requires Settled(before[T := marked], after, types + {T})
    ensures Settled(before, after, types + {T})
  {
  }

  lemma MarkedSame(es: seq<Event>, m: Message)
    ensures SameEvents(es, Marked(es, m, |m.values|))
  {
    forall i | 0 <= i < |es|
      ensures Marked(es, m, |m.values|)[i] == es[i].(done := Marked(es, m, |m.values|)[i].done)
    {
      MarkedMeansRejected(es, m, |m.values|, i);
    }
  }

  /** From event `i` on: which of the events of the message are called, with its arguments, and
      what is left of all events.  `before` are the events when the execution began, `types` the
      types of the messages that have been executed meanwhile, and `reset` the first event during
      whose call one of type `T` was. */
  lemma {:induction false} VisitedFires(before: seq<seq<Event>>, s: Mngr, T: int, i: nat, args: seq<Value>, depth: nat, script: Script,
                                        fuel: nat, types: set<int>, reset: int)
    returns (nested: set<int>, reset': int, more: seq<Call>)
    requires 0 <= T < |before| && |s.events| == |before| && |s.events[T]| == |before[T]|
    requires i <= |before[T]| && HalfWay(before, s.events, T, i, types, reset)
    requires T in types ==> reset in Firing(before[T], i, reset)
    ensures var r, es := Visited(s, T, i, args, depth, script, fuel), before[T];
      && Added(s, r, more, depth, nested)
      && HalfWay(before, r.events, T, |es|, types + nested, reset')
      && CallsOf(T, Firing(es, i, reset), args, depth) + AtDepth(more, depth) == CallsOf(T, Firing(es, |es|, reset'), args, depth)
      && (T in types + nested ==> reset' in Firing(es, |es|, reset'))
      && (AllDone(es) && types == {} ==> nested == {})
    decreases fuel, 2, |before[T]| - i
  {
    hide SameEvents, AllClear, AllDone, Settled, HalfWay, Firing, Marked, CalledBack, CallsOf, AtDepth, Added;
    var es := before[T];
    if i == |es| {
      nested, reset', more := {}, reset, [];
      AddedNothing(s, depth);
      assert types + nested == types;
      assert CallsOf(T, Firing(es, i, reset), args, depth) + [] == CallsOf(T, Firing(es, i, reset), args, depth);
    } else {
      NextVisited(before, s.events, T, i, types, reset);
      var e := s.events[T][i];
      if e.done || !e.active {
        var now := if e.done then e.(done := false) else e.(stamp := s.timer);
        VisitStep(before, s.events, T, i, types, reset, now);
        assert Firing(es, i + 1, reset) == Firing(es, i, reset);
        nested, reset', more := VisitedFires(before, WithEvent(s, T, i, now), T, i + 1, args, depth, script, fuel, types, reset);
        assert VisitedOne(s, T, i, args, depth, script, fuel) == WithEvent(s, T, i, now);
        AddedBehind(s, WithEvent(s, T, i, now), Visited(s, T, i, args, depth, script, fuel), more, depth, nested);
      } else {
        var stamped := WithEvent(s, T, i, e.(stamp := s.timer));
        VisitStep(before, s.events, T, i, types, reset, e.(stamp := s.timer));
        var during, inner := CallbackSettles(stamped, T, i, args, depth, script, fuel);
        var after := CalledBack(stamped, T, i, args, depth, script, fuel);
        assert VisitedOne(s, T, i, args, depth, script, fuel) == after;
        CallStep(before, stamped.events, after.events, T, i + 1, types, reset, during);
        var reset1 := if T in during && T !in types then i else reset;
        FiringNext(es, i, reset, reset1);
        var rest, later;
        later, reset', rest := VisitedFires(before, after, T, i + 1, args, depth, script, fuel, types + during, reset1);
        nested := during + later;
        assert types + nested == (types + during) + later;
        more := [Call(depth, T, i, args)] + inner + rest;
        AddedCall(s, stamped, after, Visited(s, T, i, args, depth, script, fuel), Call(depth, T, i, args), inner, rest, depth, during, later);
        OwnCall(Firing(es, i, reset), T, i, args, depth, inner, rest);
      }
    }
  }

  lemma AddedNothing(s: Mngr, depth: nat)
    ensures Added(s, s, [], depth, {}) && AtDepth([], depth) == []
  {
  }

  lemma AddedBehind(s: Mngr, s': Mngr, r: Mngr, more: seq<Call>, depth: nat, types: set<int>)
    requires s'.calls == s.calls && s'.executed == s.executed && Added(s', r, more, depth, types)
    ensures Added(s, r, more, depth, types)
  {
  }

  lemma AddedCall(s: Mngr, stamped: Mngr, after: Mngr, r: Mngr, call: Call, inner: seq<Call>, rest: seq<Call>, depth: nat,
                  during: set<int>, later: set<int>)
    requires stamped.calls == s.calls && stamped.executed == s.executed && call.depth == depth
    requires after.calls == stamped.calls + [call] + inner && Deeper(inner, depth + 1) && Added(after, r, rest, depth, later)
    requires stamped.executed <= after.executed && during == Since(stamped, after)
    ensures Added(s, r, [call] + inner + rest, depth, during + later)
  {
    SinceTwice(s, after, r);
  }

  /** Own calls before, one more, and the nested and later ones. */
  lemma OwnCall(fired: seq<nat>, T: int, i: nat, args: seq<Value>, depth: nat, inner: seq<Call>, rest: seq<Call>)
    requires Deeper(inner, depth + 1)
    ensures CallsOf(T, fired, args, depth) + AtDepth([Call(depth, T, i, args)] + inner + rest, depth)
         == CallsOf(T, fired + [i], args, depth) + AtDepth(rest, depth)
  {
    hide AtDepth, Deeper;
    var call := Call(depth, T, i, args);
    OneAtDepth(call);
    NoneAtDepth(inner, depth);
    AtDepthMore([call], inner, depth);
    AtDepthMore([call] + inner, rest, depth);
    assert CallsOf(T, fired + [i], args, depth) == CallsOf(T, fired, args, depth) + [call];
  }

  lemma OneAtDepth(call: Call)
    ensures AtDepth([call], call.depth) == [call]
  {
    assert AtDepth([], call.depth) == [] && [call][..0] == [];
  }

  lemma FiringNext(es: seq<Event>, i: nat, reset: int, reset': int)
    requires i < |es| && (reset' == reset || (reset' == i && reset == |es|))
    requires Firing(es, i + 1, reset) == Firing(es, i, reset) + [i]
    ensures Firing(es, i + 1, reset') == Firing(es, i, reset) + [i]
  {
    if reset' != reset { FiringBeforeReset(es, i + 1, reset, reset'); }
  }

  /** A callback leaves the events settled by the messages that it sends. */
  lemma CallbackSettles(s: Mngr, T: int, i: nat, args: seq<Value>, depth: nat, script: Script, fuel: nat)
    returns (nested: set<int>, inner: seq<Call>)
    ensures var r := CalledBack(s, T, i, args, depth, script, fuel);
      && r.calls == s.calls + [Call(depth, T, i, args)] + inner && Deeper(inner, depth + 1)
      && s.executed <= r.executed && nested == Since(s, r) && Settled(s.events, r.events, nested)
    decreases fuel, 1
  {
    hide Settled;
    var called := s.(calls := s.calls + [Call(depth, T, i, args)]);
    if fuel == 0 {
      nested, inner := {}, [];
      SettledNothing(s.events);
    } else {
      nested, inner := SentAllSettles(called, script(T, i, args), depth + 1, script, fuel - 1);
    }
  }

  lemma {:induction false} SentAllSettles(s: Mngr, ms: seq<Message>, depth: nat, script: Script, fuel: nat)
    returns (types: set<int>, more: seq<Call>)
    ensures var r := SentAll(s, ms, depth, script, fuel); Added(s, r, more, depth, types) && Settled(s.events, r.events, types)
    decreases fuel, 4, |ms|
  {
    hide Settled, Sent, Added;
    if ms == [] {
      types, more := {}, [];
      SettledNothing(s.events);
      AddedNothing(s, depth);
    } else {
      var next := Sent(s, ms[0], depth, script, fuel);
      var first, _, _, calls := SentSettles(s, ms[0], depth, script, fuel);
      var rest, later := SentAllSettles(next, ms[1..], depth, script, fuel);
      var r := SentAll(s, ms, depth, script, fuel);
      SettledTwice(s.events, next.events, r.events, first, rest);
      AddedTwice(s, next, r, calls, later, depth, first, rest);
      types, more := first + rest, calls + later;
    }
  }

  /** What a message does, nested messages included: `nested` are the types of the messages that
      are executed meanwhile, `types` those and its own, `reset` the first event during whose call
      one of its own type is, and `more` the callbacks.  Its own callbacks are those of the events
      that fire, in order, and every one sees its arguments. */
  lemma {:induction false} SentSettles(s: Mngr, m: Message, depth: nat, script: Script, fuel: nat)
    returns (types: set<int>, nested: set<int>, reset: int, more: seq<Call>)
    ensures var r := Sent(s, m, depth, script, fuel);
      && Added(s, r, more, depth, types) && Settled(s.events, r.events, types)
      && (if 0 <= m.msgType < |s.events| && s.events[m.msgType] != [] then
            var es := s.events[m.msgType];
            var fired := Firing(Marked(es, m, |m.values|), |es|, reset);
            && AtDepth(more, depth) == CallsOf(m.msgType, fired, Arguments(m), depth)
            && Added(Begun(s, m), r, more, depth, nested) && types == nested + {m.msgType}
            && (if m.msgType in nested then 0 <= reset < |es| && reset in fired else reset == |es|)
          else more == [] && types == {})
    decreases fuel, 3
  {
    hide Settled, Firing, Marked, SameEvents, AllDone, HalfWay, Added, CallsOf, AtDepth, AllClear;
    var T := m.msgType;
    if T < 0 || T >= |s.events| || s.events[T] == [] {
      types, nested, reset, more := {}, {}, 0, [];
      SettledNothing(s.events);
      AddedUnchanged(s, Sent(s, m, depth, script, fuel), depth);
    } else {
      var es := s.events[T];
      var marked := Marked(es, m, |m.values|);
      var begun := Begun(s, m);
      NothingVisited(begun.events, T);
      nested, reset, more := VisitedFires(begun.events, begun, T, 0, Arguments(m), depth, script, fuel, {}, |es|);
      var r, none: set<int> := Sent(s, m, depth, script, fuel), {};
      assert none + nested == nested;
      AllVisited(begun.events, r.events, T, nested, reset);
      MarkedSame(es, m);
      SettledMessage(s.events, r.events, T, marked, nested);
      AddedBegun(s, m, r, more, depth, nested);
      NoCallsYet(T, marked, Arguments(m), depth);
      assert CallsOf(T, [], Arguments(m), depth) + AtDepth(more, depth) == AtDepth(more, depth);
      types := nested + {T};
    }
  }

  lemma AddedBegun(s: Mngr, m: Message, r: Mngr, more: seq<Call>, depth: nat, nested: set<int>)
    requires 0 <= m.msgType < |s.events| && Added(Begun(s, m), r, more, depth, nested)
    ensures Added(s, r, more, depth, nested + {m.msgType})
  {
    var begun := Begun(s, m);
    SinceTwice(s, begun, r);
    assert begun.executed[|s.executed|..] == [m.msgType];
  }

  lemma AddedUnchanged(s: Mngr, r: Mngr, depth: nat)
    requires r.calls == s.calls && r.executed == s.executed
    ensures Added(s, r, [], depth, {})
  {
  }

  lemma NoCallsYet(T: int, es: seq<Event>, args: seq<Value>, depth: nat)
    ensures CallsOf(T, [], args, depth) == [] && Firing(es, 0, |es|) == []
  {
  }

  /** A message during which none of its own type is executed calls exactly the active events that
      take it and had no mark when it began. */
  lemma SentFiresAsDeclared(s: Mngr, m: Message, depth: nat, script: Script, fuel: nat, k: nat)
    requires 0 <= m.msgType < |s.events| && k < |s.events[m.msgType]|
    ensures var r, es, begun := Sent(s, m, depth, script, fuel), s.events[m.msgType], Begun(s, m);
      && s.calls <= r.calls && begun.executed <= r.executed
      && Settled(s.events, r.events, Since(begun, r) + {m.msgType})
      && (m.msgType !in Since(begun, r) ==>
            (Call(depth, m.msgType, k, Arguments(m)) in AtDepth(r.calls[|s.calls|..], depth)
             <==> !es[k].done && Fires(es, m, k)))
  {
    hide Settled, AtDepth, Firing, Marked, Fires, Since;
    var types, nested, reset, more := SentSettles(s, m, depth, script, fuel);
    var r := Sent(s, m, depth, script, fuel);
    assert r.calls[|s.calls|..] == more;
    var es := s.events[m.msgType];
    var fired := Firing(Marked(es, m, |m.values|), |es|, reset);
    CallIn(m.msgType, fired, Arguments(m), depth, k);
    if m.msgType !in nested { FiresAsDeclared(es, m, k); }
  }

  lemma CallIn(T: int, events: seq<nat>, args: seq<Value>, depth: nat, k: nat)
    ensures Call(depth, T, k, args) in CallsOf(T, events, args, depth) <==> k in events
  {
    if k in events {
      var j :| 0 <= j < |events| && events[j] == k;
      assert CallsOf(T, events, args, depth)[j] == Call(depth, T, k, args);
    }
  }

  /** When every event is marked, no callback is made and the arguments do not matter. */
  lemma {:induction false} DoneIgnoresArgs(s: Mngr, T: int, i: nat, args: seq<Value>, args': seq<Value>, depth: nat, script: Script, fuel: nat)
    requires 0 <= T < |s.events| && i <= |s.events[T]| && forall k :: i <= k < |s.events[T]| ==> s.events[T][k].done
    ensures Visited(s, T, i, args, depth, script, fuel) == Visited(s, T, i, args', depth, script, fuel)
    decreases |s.events[T]| - i
  {
    if i < |s.events[T]| {
      DoneIgnoresArgs(WithEvent(s, T, i, s.events[T][i].(done := false)), T, i + 1, args, args', depth, script, fuel);
    }
  }

  lemma SameOrIgnored(s: Mngr, T: int, args: seq<Value>, args': seq<Value>, depth: nat, script: Script, fuel: nat)
    requires 0 <= T < |s.events| && (args == args' || AllDone(s.events[T]))
    ensures Visited(s, T, 0, args, depth, script, fuel) == Visited(s, T, 0, args', depth, script, fuel)
  {
    if args != args' { DoneIgnoresArgs(s, T, 0, args, args', depth, script, fuel); }
  }

  // ----- the manager -----

  class EventsMngr {
    var events: seq<seq<Event>>     // m_Events, by message type
    var parseFun: Option<int>       // the message type of m_ParseFun
    var parseNotDone: bool
    var parseVault: array?<Value>
    var parsePos: nat
    var parseMsgType: int
    var timer: real
    var readVault: array?<Value>
    var readPos: int
    var readMsgType: int
    var reentrant: nat
    /** The callbacks and the executed messages so far, and whether all message types were in the
        table or out of reach. */
    ghost var calls: seq<Call>
    ghost var executed: seq<int>
    ghost var defined: bool

    ghost function Current(): Mngr
      reads `events, `timer, `calls, `executed, `defined
    {
      Mngr(events, timer, calls, executed, defined)
    }

    predicate Valid()
      reads this
    {
      && (parseVault != null ==> parsePos < parseVault.Length && parseVault.Length >= INITIAL_PARSEVAULT_SIZE)
      && (parseFun.Some? ==> 0 <= parseFun.value < |events|)
      && (parseFun.Some? && parseNotDone ==> parseVault != null)
      && -1 <= readPos && (readPos >= 0 && readVault != null ==> readPos < readVault.Length)
      && (readVault != null ==> readVault != parseVault)
      && (reentrant == 0 ==> readPos < 0)
    }

    /** The first callback ever runs after the parse vault is made. */
    predicate VaultsMade()
      reads this
    {
      parseVault == null ==> readVault == null && reentrant == 0
    }

    /** The arguments that an event can read. */
    function ReadArgs(): seq<Value>
      requires Valid()
      reads this, readVault
    {
      if readVault == null || readPos < 0 then [] else readVault[..readPos + 1]
    }

    function ParsedArgs(): seq<Value>
      requires Valid()
      reads this, parseVault
    {
      if parseVault == null then [] else parseVault[..parsePos + 1]
    }

    /** m_ParsePos is not initialized. */
    constructor (messageTypes: nat, parsePos0: nat)
      ensures Valid() && parseFun == None && reentrant == 0 && readPos == -1
      ensures |events| == messageTypes && (forall es <- events :: es == []) && calls == [] && executed == [] && defined
    {
      events := seq(messageTypes, _ => []);
      parseFun, parseNotDone, parseVault, parsePos, parseMsgType, timer := None, false, null, parsePos0, -1, 0.0;
      readVault, readPos, readMsgType, reentrant := null, -1, -1, 0;
      calls, executed, defined := [], [], true;
    }

    /** registerEvent */
    method RegisterEvent(msgType: int, flags: nat, executable: bool) returns (registered: bool)
      requires Valid()
      modifies `events
      ensures Valid() && registered == (0 <= msgType < |events|)
      ensures events == if 0 <= msgType < |old(events)| then old(events)[msgType := old(events)[msgType] + [NewEvent(flags, executable)]] else old(events)
    {
      registered := 0 <= msgType < |events|;
      if registered {
        events := events[msgType := events[msgType] + [NewEvent(flags, executable)]];
      }
    }

    /** registerFilter: the loop finds the operator behind the digits. */
    method RegisterFilter(msgType: nat, i: nat, filter: string, atof: string -> real)
      requires Valid() && msgType < |events| && i < |events[msgType]|
      modifies `events
      ensures Valid()
      ensures var e, cond := old(events)[msgType][i], ParseFilter(filter, atof);
        events == if cond.None? then old(events) else
          old(events)[msgType := old(events)[msgType][i := e.(conds := e.conds + [cond.value])]]
    {
      hide Atoi;
      var value := 0;
      while value < |filter| && IsDigit(filter[value])
        invariant 0 <= value <= |filter| && forall k :: 0 <= k < value ==> IsDigit(filter[k])
      {
        value := value + 1;
      }
      DigitsUnique(filter, value);
      if value == |filter| {
        return;
      }
      var e, rest := events[msgType][i], filter[value + 1..];
      var cond := Cond(Atoi(filter[..value]), filter[value], Atoi(rest), atof(rest), rest);
      events := events[msgType := events[msgType][i := e.(conds := e.conds + [cond])]];
    }

    /** NextParam: makes room for the parameter at `parsePos`. */
    method NextParam()
      requires parseVault != null ==> 0 < parseVault.Length && parsePos <= parseVault.Length
      requires parseVault == null ==> parsePos == 0
      modifies this`parseVault
      ensures parseVault != null && parsePos < parseVault.Length
      ensures parseVault == old(parseVault) || fresh(parseVault)
      ensures old(parseVault) == null ==> parseVault.Length == INITIAL_PARSEVAULT_SIZE
      ensures old(parseVault) != null ==> old(parseVault).Length <= parseVault.Length && parseVault[..parsePos] == old(parseVault[..parsePos])
    {
      if parseVault == null {
        parseVault := new Value[INITIAL_PARSEVAULT_SIZE](_ => IntValue(0));
      } else if parsePos >= parseVault.Length {
        var tmp := parseVault;
        parseVault := new Value[tmp.Length * 2](i requires 0 <= i < tmp.Length * 2 reads tmp => if i < tmp.Length then tmp[i] else IntValue(0));
        assert parseVault[..parsePos] == tmp[..parsePos];
      }
    }

    /** The first loop of parserInit. */
    method MarkEntries(T: int, m: Message)
      requires 0 <= T < |events|
      modifies `events, `parseNotDone
      ensures events == old(events)[T := MarkEntry(old(events)[T], m)]
      ensures parseNotDone == !AllDone(events[T])
    {
      ghost var es := events[T];
      parseNotDone := false;
      var i := 0;
      while i < |events[T]|
        invariant |events| == |old(events)| && |events[T]| == |es| && 0 <= i <= |es|
        invariant events == old(events)[T := events[T]]
        invariant forall k :: 0 <= k < |es| ==> events[T][k] == if k < i then Mark(es[k], !Enters(es[k], m)) else es[k]
        invariant parseNotDone <==> exists k :: 0 <= k < i && !events[T][k].done
      {
        var e := events[T][i];
        if !e.done {
          if Enters(e, m) {
            parseNotDone := true;
          } else {
            events := events[T := events[T][i := e.(done := true)]];
          }
        }
        i := i + 1;
      }
      assert events[T] == MarkEntry(es, m);
    }

    /** parserInit */
    method ParserInit(m: Message)
      requires Valid()
      modifies `events, `timer, `defined, `parseFun, `parseNotDone, `parseVault, `parsePos, `parseMsgType, parseVault
      ensures Valid() && (parseVault == old(parseVault) || fresh(parseVault))
      ensures defined == (old(defined) && m.msgType != |events|)
      ensures var T := m.msgType;
        if 0 <= T < |old(events)| && old(events)[T] != [] then
          && parseFun == Some(T) && timer == m.time && parseMsgType == T
          && events == old(events)[T := MarkEntry(old(events)[T], m)]
          && parseNotDone == !AllDone(events[T])
          && (parseNotDone ==> ParsedArgs() == [IntValue(m.index)])
        else
          events == old(events) && parseFun == old(parseFun) && timer == old(timer)
    {
      var T := m.msgType;
      if T < 0 || T > |events| { return; }
      if T == |events| {
        // the source goes on behind its table
        defined := false;
        return;
      }
      parseNotDone := false;
      if events[T] == [] { return; }
      parseMsgType, timer := T, m.time;
      MarkEntries(T, m);
      if parseNotDone {
        parsePos := 0;
        NextParam();
        parseVault[0] := IntValue(m.index);
      }
      parseFun := Some(T);
    }

    /** The condition loop of parseValue. */
    method Rejects(conds: seq<Cond>, v: Value) returns (rejected: bool)
      ensures rejected <==> !Meets(conds, parsePos, v)
    {
      var execute, anyConditions := false, false;
      var i := 0;
      while i < |conds|
        invariant 0 <= i <= |conds| && !execute
        invariant anyConditions <==> exists k :: 0 <= k < i && conds[k].paramId == parsePos
        invariant forall k :: 0 <= k < i && conds[k].paramId == parsePos ==> !Holds(conds[k], v)
      {
        if conds[i].paramId == parsePos {
          anyConditions := true;
          if Holds(conds[i], v) {
            execute := true;
            assert conds[i] in conds;
            break;
          }
        }
        i := i + 1;
      }
      rejected := anyConditions && !execute;
    }

    /** parseValue, of an integer, a float or a string */
    method ParseValue(v: Value)
      requires Valid()
      modifies `events, `parseVault, `parsePos, parseVault
      ensures Valid() && (parseVault == old(parseVault) || fresh(parseVault))
      ensures defined == old(defined)
      ensures if old(parseNotDone) && old(parseFun).Some? then
          var T := parseFun.value;
          && ParsedArgs() == old(ParsedArgs()) + [v]
          && events == old(events)[T := MarkParam(old(events)[T], |old(ParsedArgs())|, v)]
        else events == old(events)
    {
      if !parseNotDone || parseFun == None { return; }
      ghost var before := parseVault[..parsePos + 1];
      parsePos := parsePos + 1;
      NextParam();
      parseVault[parsePos] := v;
      assert parseVault[..parsePos + 1] == before + [v];
      MarkParams(parseFun.value, v);
    }

    /** The event loop of parseValue. */
    method MarkParams(T: int, v: Value)
      requires 0 <= T < |events|
      modifies `events
      ensures events == old(events)[T := MarkParam(old(events)[T], parsePos, v)]
    {
      ghost var es := events[T];
      var i := 0;
      while i < |events[T]|
        invariant |events| == |old(events)| && |events[T]| == |es| && 0 <= i <= |es|
        invariant events == old(events)[T := events[T]]
        invariant forall k :: 0 <= k < |es| ==>
          events[T][k] == if k < i then Mark(es[k], !Meets(es[k].conds, parsePos, v)) else es[k]
      {
        if !events[T][i].done {
          var rejected := Rejects(events[T][i].conds, v);
          if rejected {
            events := events[T := events[T][i := events[T][i].(done := true)]];
          }
        }
        i := i + 1;
      }
      assert events[T] == MarkParam(es, parsePos, v);
    }

    /** A message has been parsed up to its parameter `n`; `before` is the state when it arrived. */
    ghost predicate HalfParsed(m: Message, n: nat, before: Mngr)
      requires Valid() && n <= |m.values|
      reads this, parseVault
    {
      var T := m.msgType;
      if 0 <= T < |before.events| && before.events[T] != [] then
        && parseFun == Some(T) && timer == m.time && parseMsgType == T
        && events == before.events[T := Marked(before.events[T], m, n)]
        && if parseNotDone then ParsedArgs() == [IntValue(m.index)] + m.values[..n] else AllDone(MarkEntry(before.events[T], m))
      else events == before.events && parseFun == None && timer == before.timer
    }

    /** The next parameter of a message. */
    method ParseNext(m: Message, n: nat, ghost before: Mngr)
      requires Valid() && n < |m.values| && HalfParsed(m, n, before)
      modifies `events, `parseVault, `parsePos, parseVault
      ensures Valid() && (parseVault == old(parseVault) || fresh(parseVault))
      ensures HalfParsed(m, n + 1, before)
    {
      hide Marked, MarkEntry, MarkParam, AllDone;
      assert [IntValue(m.index)] + m.values[..n + 1] == [IntValue(m.index)] + m.values[..n] + [m.values[n]];
      if parseFun.Some? {
        ghost var T, es := m.msgType, before.events[m.msgType];
        MarkedNext(es, m, n);
        UpdateTwice(before.events, T, Marked(es, m, n), Marked(es, m, n + 1));
      }
      ParseValue(m.values[n]);
    }

    /** A message up to its last parameter: parserInit, and parseValue for every parameter. */
    method Parse(m: Message)
      requires Valid() && parseFun == None
      modifies `events, `timer, `defined, `parseFun, `parseNotDone, `parseVault, `parsePos, `parseMsgType, parseVault
      ensures Valid() && (parseVault == old(parseVault) || fresh(parseVault))
      ensures defined == (old(defined) && m.msgType != |events|)
      ensures var T := m.msgType;
        if 0 <= T < |old(events)| && old(events)[T] != [] then
          && parseFun == Some(T) && timer == m.time && parseMsgType == T
          && events == old(events)[T := Marked(old(events)[T], m, |m.values|)]
          && (AllDone(events[T]) || ParsedArgs() == Arguments(m))
        else
          events == old(events) && parseFun == None && timer == old(timer)
    {
      hide Marked, MarkEntry, MarkParam, AllDone;
      ParserInit(m);
      ghost var before := old(Current());
      if parseFun.Some? { MarkedFirst(before.events[m.msgType], m); }
      var i := 0;
      while i < |m.values|
        invariant 0 <= i <= |m.values| && Valid() && (parseVault == old(parseVault) || fresh(parseVault))
        invariant defined == (old(defined) && m.msgType != |before.events|) && HalfParsed(m, i, before)
      {
        ParseNext(m, i, before);
        i := i + 1;
      }
      assert m.values[..i] == m.values;
      if parseFun.Some? && !parseNotDone { MarkedAllDone(before.events[m.msgType], m, i); }
    }

    // ----- executing -----

    /** The start of executeEvents: hands the parsed arguments to the readers.  Gives what is to be
        handed back at the end. */
    method OpenVault() returns (oldMsgType: int, oldReadPos: int, oldReadVault: array?<Value>)
      requires Valid() && VaultsMade()
      modifies `readVault, `readPos, `readMsgType, `reentrant, if reentrant == 0 then {readVault} else {}
      ensures Valid() && reentrant == old(reentrant) + 1 && readMsgType == parseMsgType
      ensures parseVault != null ==> ReadArgs() == ParsedArgs() && ParsedArgs() == old(ParsedArgs())
      ensures readVault == old(readVault) || fresh(readVault)
      ensures old(reentrant) > 0 ==> fresh(readVault)
      ensures parseVault == null ==> readVault == null
      ensures parseVault == old(parseVault) && parsePos == old(parsePos) && parseFun == old(parseFun)
      ensures Current() == old(Current()) && parseNotDone == old(parseNotDone)
      ensures oldMsgType == old(readMsgType) && oldReadPos == old(readPos)
      ensures oldReadVault == if old(reentrant) == 0 then readVault else old(readVault)
    {
      oldMsgType, oldReadPos, oldReadVault := readMsgType, readPos, readVault;
      if reentrant > 0 {
        readVault := new Value[parsePos + 1](_ => IntValue(0));
      } else if (if readVault == null then 0 else readVault.Length) != (if parseVault == null then 0 else parseVault.Length) {
        readVault := new Value[if parseVault == null then 0 else parseVault.Length](_ => IntValue(0));
      }
      reentrant := reentrant + 1;
      if reentrant == 1 { oldReadVault := readVault; }
      readPos, readMsgType := parsePos, parseMsgType;
      if parseVault != null {
        forall k | 0 <= k < parsePos + 1 {
          readVault[k] := parseVault[k];
        }
        assert readVault[..readPos + 1] == parseVault[..parsePos + 1];
      }
    }

    /** A callback: the forward that is executed for an event. */
    method Callback(T: int, i: nat, script: Script, fuel: nat)
      requires Valid() && VaultsMade() && parseFun == None && reentrant > 0
      modifies this, parseVault
      ensures Valid() && VaultsMade() && parseFun == None && reentrant == old(reentrant)
      ensures parseVault == old(parseVault) || fresh(parseVault)
      ensures readVault == old(readVault) && readPos == old(readPos) && readMsgType == old(readMsgType)
      ensures ReadArgs() == old(ReadArgs())
      ensures Current() == CalledBack(old(Current()), T, i, old(ReadArgs()), old(reentrant), script, fuel)
      decreases fuel, 1
    {
      hide SentAll;
      calls := calls + [Call(reentrant, T, i, ReadArgs())];
      if fuel > 0 {
        SendAll(script(T, i, ReadArgs()), script, fuel - 1);
      }
    }

    /** The loop of executeEvents. */
    method FireEvents(T: int, script: Script, fuel: nat)
      requires Valid() && reentrant > 0 && parseFun == None && 0 <= T < |events|
      requires VaultsMade() || AllDone(events[T])
      modifies this, parseVault
      ensures Valid() && parseFun == None && reentrant == old(reentrant)
      ensures parseVault == old(parseVault) || fresh(parseVault)
      ensures readVault == old(readVault) && readPos == old(readPos) && readMsgType == old(readMsgType)
      ensures ReadArgs() == old(ReadArgs())
      ensures old(VaultsMade()) ==> VaultsMade()
      ensures Current() == Visited(old(Current()), T, 0, old(ReadArgs()), old(reentrant), script, fuel)
      decreases fuel, 3, 0
    {
      hide VisitedOne;
      ghost var s, args := Current(), ReadArgs();
      var lastSize := |events[T]|;
      var i := 0;
      while i < lastSize
        invariant |events| == |s.events| && |events[T]| == |s.events[T]| == lastSize && 0 <= i <= lastSize
        invariant Valid() && parseFun == None && reentrant == old(reentrant)
        invariant parseVault == old(parseVault) || fresh(parseVault)
        invariant readVault == old(readVault) && readPos == old(readPos) && readMsgType == old(readMsgType)
        invariant ReadArgs() == args && (old(VaultsMade()) ==> VaultsMade())
        invariant !old(VaultsMade()) ==> !VaultsMade() && forall k :: i <= k < lastSize ==> events[T][k].done
        invariant Visited(Current(), T, i, args, reentrant, script, fuel) == Visited(s, T, 0, args, reentrant, script, fuel)
      {
        VisitEvent(T, i, script, fuel);
        i := i + 1;
      }
    }

    /** One round of the loop of executeEvents. */
    method VisitEvent(T: int, i: nat, script: Script, fuel: nat)
      requires Valid() && reentrant > 0 && parseFun == None && 0 <= T < |events| && i < |events[T]|
      requires VaultsMade() || events[T][i].done
      modifies this, parseVault
      ensures Valid() && parseFun == None && reentrant == old(reentrant)
      ensures parseVault == old(parseVault) || fresh(parseVault)
      ensures readVault == old(readVault) && readPos == old(readPos) && readMsgType == old(readMsgType)
      ensures ReadArgs() == old(ReadArgs())
      ensures old(VaultsMade()) ==> VaultsMade()
      ensures !old(VaultsMade()) ==>
        !VaultsMade() && Current() == WithEvent(old(Current()), T, i, old(events)[T][i].(done := false))
      ensures Current() == VisitedOne(old(Current()), T, i, old(ReadArgs()), old(reentrant), script, fuel)
      decreases fuel, 2
    {
      hide CalledBack;
      var e := events[T][i];
      if e.done {
        events := events[T := events[T][i := e.(done := false)]];
      } else {
        events := events[T := events[T][i := e.(stamp := timer)]];
        if e.active {
          Callback(T, i, script, fuel);
        }
      }
    }

    /** The messages that a callback sends. */
    method SendAll(ms: seq<Message>, script: Script, fuel: nat)
      requires Valid() && VaultsMade() && parseFun == None && reentrant > 0
      modifies this, parseVault
      ensures Valid() && VaultsMade() && parseFun == None && reentrant == old(reentrant)
      ensures parseVault == old(parseVault) || fresh(parseVault)
      ensures readVault == old(readVault) && readPos == old(readPos) && readMsgType == old(readMsgType)
      ensures ReadArgs() == old(ReadArgs())
      ensures Current() == SentAll(old(Current()), ms, reentrant + 1, script, fuel)
      decreases fuel, 4, |ms|
    {
      hide Sent;
      if ms != [] {
        Send(ms[0], script, fuel);
        SendAll(ms[1..], script, fuel);
      }
    }

    /** A message from its first byte to its last. */
    method Send(m: Message, script: Script, fuel: nat)
      requires Valid() && VaultsMade() && parseFun == None
      modifies this, parseVault, if reentrant == 0 then {readVault} else {}
      ensures Valid() && VaultsMade() && parseFun == None && reentrant == old(reentrant)
      ensures parseVault == old(parseVault) || fresh(parseVault)
      ensures old(reentrant) > 0 ==> readVault == old(readVault)
      ensures readPos == old(readPos) && readMsgType == old(readMsgType) && ReadArgs() == old(ReadArgs())
      ensures Current() == Sent(old(Current()), m, reentrant + 1, script, fuel)
      decreases fuel, 3, 2
    {
      hide Marked, Visited;
      Parse(m);
      if parseFun != None {
        ghost var T, parsed := parseFun.value, ParsedArgs();
        ghost var s := Current().(executed := executed + [T]);
        SameOrIgnored(s, T, parsed, Arguments(m), reentrant + 1, script, fuel);
        ExecuteEvents(script, fuel);
      }
    }

    /** executeEvents: afterwards the readers see what they saw before. */
    method ExecuteEvents(script: Script, fuel: nat)
      requires Valid() && VaultsMade() && parseFun.Some? && (parseVault == null ==> AllDone(events[parseFun.value]))
      modifies this, parseVault, if reentrant == 0 then {readVault} else {}
      ensures Valid() && VaultsMade() && parseFun == None && reentrant == old(reentrant)
      ensures parseVault == old(parseVault) || fresh(parseVault)
      ensures old(reentrant) > 0 ==> readVault == old(readVault)
      ensures readVault == old(readVault) || fresh(readVault)
      ensures readPos == old(readPos) && readMsgType == old(readMsgType)
      ensures var s, T := old(Current()), old(parseFun).value;
        Current() == Visited(s.(executed := s.executed + [T]), T, 0, old(ParsedArgs()), reentrant + 1, script, fuel)
      decreases fuel, 3, 1
    {
      hide Visited, SameShape, AllDone;
      var T := parseFun.value;
      executed := executed + [T];
      ghost var s, parsed := Current(), ParsedArgs();
      var oldMsgType, oldReadPos, oldReadVault := OpenVault();
      parseFun := None;
      assert Current() == s && reentrant == old(reentrant) + 1;
      ghost var args := ReadArgs();
      SameOrIgnored(s, T, args, parsed, reentrant, script, fuel);
      FireEvents(T, script, fuel);
      assert Current() == Visited(s, T, 0, parsed, reentrant, script, fuel);
      CloseVault(oldMsgType, oldReadPos, oldReadVault);
    }

    /** The end of executeEvents: hands back the arguments of the message that this one is nested in. */
    method CloseVault(msgType: int, pos: int, vault: array?<Value>)
      requires Valid() && reentrant > 0 && (reentrant == 1 ==> pos < 0) && -1 <= pos
      requires vault != null ==> vault != parseVault && pos < vault.Length
      requires parseVault == null ==> vault == null && reentrant == 1
      modifies `readMsgType, `readPos, `readVault, `reentrant
      ensures Valid() && VaultsMade() && reentrant == old(reentrant) - 1
      ensures readMsgType == msgType && readPos == pos && readVault == vault
    {
      readMsgType, readPos, readVault := msgType, pos, vault;
      reentrant := reentrant - 1;
    }
  }
}

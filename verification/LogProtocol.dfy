/**
  `logln` (kernel/src/sys/log.c) under its spinlock, with the console's own spinlock inside it, as
  interleaved atomic steps of any number of threads. Threads may also write to the console directly
  (kernel/src/dev/tty.c). The serial port is a trace of bytes (kernel/src/dev/serio.c).
  */
module LogProtocol {

  /** What a formatted buffer holds in front of its NUL. */
  type Text = t: seq<nat> | 0 !in t

  /** One call of `logln`: the formatted "component - level: " prefix and the formatted message. */
  datatype Call = Call(prefix: Text, message: Text)

  /** The bytes the kernel's `strlen` counts: the text and its NUL. */
  ghost function Counted(t: Text): seq<nat> {
    t + [0]
  }

  /** What a call leaves on the serial port: prefix, NUL, message, NUL. */
  ghost function Line(c: Call): seq<nat> {
    c.prefix + [0] + c.message + [0]
  }

  /** What a call does between taking and releasing the logger lock. */
  datatype Action = Console | Serial(byte: nat)

  ghost function SendAll(bytes: seq<nat>): seq<Action> {
    seq(|bytes|, i requires 0 <= i < |bytes| => Serial(bytes[i]))
  }

  /** Five console calls, the prefix bytes, the message on the console, the message bytes. */
  ghost function Program(c: Call): seq<Action> {
    [Console, Console, Console, Console, Console] + SendAll(Counted(c.prefix)) + [Console] + SendAll(Counted(c.message))
  }

  /** The bytes a stretch of a program sends. */
  ghost function Sent(p: seq<Action>): seq<nat> {
    if p == [] then []
    else Sent(p[..|p| - 1]) + (if p[|p| - 1].Serial? then [p[|p| - 1].byte] else [])
  }

  /** A critical section of the console: not in it, lock held, or written and about to release. */
  datatype Section = Outside | Locked | Written

  /**
    Where a thread is: in its own code; spinning on the logger lock; at action k of a call that holds
    the logger lock; spinning on the console lock from outside the logger; or in such a section.
    */
  datatype Pc =
    | Idle
    | Waiting(call: Call)
    | Logging(call: Call, k: nat, section: Section)
    | WantConsole
    | InConsole(section: Section)

  /** `order` lists the calls in the order in which they took the logger lock. */
  datatype State = State(pcs: seq<Pc>, logger: bool, console: bool, serial: seq<nat>, order: seq<Call>)

  /** What an idle thread does when it is scheduled. */
  datatype Wish = Rest | Log(call: Call) | Write

  ghost function Goto(s: State, i: nat, pc: Pc): State
    requires i < |s.pcs|
  {
    s.(pcs := s.pcs[i := pc])
  }

  /**
    One atomic step of thread i. Taking a lock is one test-and-set: it succeeds if the flag was clear,
    otherwise the thread stays where it is. Releasing clears the flag, whoever set it.
    */
  ghost function Step(s: State, i: nat, wish: Wish): (r: State)
    requires i < |s.pcs|
    ensures |r.pcs| == |s.pcs|
  {
    match s.pcs[i]
    case Idle =>
      (match wish
       case Rest => s
       case Log(call) => Goto(s, i, Waiting(call))
       case Write => Goto(s, i, WantConsole))
    case Waiting(call) =>
      if s.logger then s else Goto(s, i, Logging(call, 0, Outside)).(logger := true, order := s.order + [call])
    case Logging(call, k, Outside) =>
      if k >= |Program(call)| then Goto(s, i, Idle).(logger := false)
      else if Program(call)[k].Serial? then
        Goto(s, i, Logging(call, k + 1, Outside)).(serial := s.serial + [Program(call)[k].byte])
      else if s.console then s
      else Goto(s, i, Logging(call, k, Locked)).(console := true)
    case Logging(call, k, Locked) => Goto(s, i, Logging(call, k, Written))
    case Logging(call, k, Written) => Goto(s, i, Logging(call, k + 1, Outside)).(console := false)
    case WantConsole => if s.console then s else Goto(s, i, InConsole(Locked)).(console := true)
    case InConsole(section) =>
      if section.Locked? then Goto(s, i, InConsole(Written)) else Goto(s, i, Idle).(console := false)
  }

  ghost function Initial(n: nat): State {
    State(seq(n, i => Idle), false, false, [], [])
  }

  datatype Turn = Turn(i: nat, wish: Wish)

  /** The state after an interleaving. */
  ghost predicate Run(s: State, turns: seq<Turn>, s': State)
    decreases |turns|
  {
    if turns == [] then s' == s
    else turns[0].i < |s.pcs| && Run(Step(s, turns[0].i, turns[0].wish), turns[1..], s')
  }

  // ------------------------------------------------------------------------------------------
  // Invariants

  ghost predicate HoldsLogger(pc: Pc) {
    pc.Logging?
  }

  ghost predicate HoldsConsole(pc: Pc) {
    (pc.Logging? && !pc.section.Outside?) || pc.InConsole?
  }

  /** A thread inside a console section of a call is at a console action; progress stays in bounds. */
  ghost predicate WellPlaced(pc: Pc) {
    match pc
    case Logging(call, k, section) =>
      k <= |Program(call)| && (!section.Outside? ==> k < |Program(call)| && Program(call)[k].Console?)
    case InConsole(section) => !section.Outside?
    case _ => true
  }

  /** A flag is set exactly when some thread holds the lock, and at most one does. */
  ghost predicate Guards(flag: bool, holds: Pc -> bool, pcs: seq<Pc>) {
    && (forall i, j | 0 <= i < |pcs| && 0 <= j < |pcs| && holds(pcs[i]) && holds(pcs[j]) :: i == j)
    && (forall i | 0 <= i < |pcs| && holds(pcs[i]) :: flag)
    && (flag ==> exists i :: 0 <= i < |pcs| && holds(pcs[i]))
  }

  /** Mutual exclusion of both locks. */
  ghost predicate Exclusive(s: State) {
    Guards(s.logger, HoldsLogger, s.pcs) && Guards(s.console, HoldsConsole, s.pcs)
  }

  ghost function Lines(calls: seq<Call>): seq<nat> {
    if calls == [] then [] else Lines(calls[..|calls| - 1]) + Line(calls[|calls| - 1])
  }

  /**
    The serial trace is the concatenation of whole lines in the order the lock was taken, followed,
    while the lock is held, by the part of the holder's line sent so far.
    */
  ghost predicate WholeLines(s: State) {
    if s.logger then
      && s.order != []
      && forall i | 0 <= i < |s.pcs| && s.pcs[i].Logging? ::
           && s.pcs[i].call == s.order[|s.order| - 1] && s.pcs[i].k <= |Program(s.pcs[i].call)|
           && s.serial == Lines(s.order[..|s.order| - 1]) + Sent(Program(s.pcs[i].call)[..s.pcs[i].k])
    else s.serial == Lines(s.order)
  }

  ghost predicate Inv(s: State) {
    (forall i | 0 <= i < |s.pcs| :: WellPlaced(s.pcs[i])) && Exclusive(s) && WholeLines(s)
  }

  lemma {:induction false} SentAll(bytes: seq<nat>)
    ensures Sent(SendAll(bytes)) == bytes
    decreases |bytes|
  {
    if bytes != [] {
      var n := |bytes| - 1;
      assert SendAll(bytes)[..n] == SendAll(bytes[..n]);
      SentAll(bytes[..n]);
    }
  }

  lemma {:induction false} SentConcat(a: seq<Action>, b: seq<Action>)
    ensures Sent(a + b) == Sent(a) + Sent(b)
    decreases |b|
  {
    if b == [] {
      assert a + b == a;
    } else {
      assert (a + b)[..|a + b| - 1] == a + b[..|b| - 1];
      SentConcat(a, b[..|b| - 1]);
    }
  }

  lemma {:induction false} ConsoleSendsNothing(p: seq<Action>)
    requires forall i | 0 <= i < |p| :: p[i].Console?
    ensures Sent(p) == []
    decreases |p|
  {
    if p != [] {
      ConsoleSendsNothing(p[..|p| - 1]);
    }
  }

  /** A whole call sends its prefix and its message, each with its NUL. */
  lemma {:induction false} ProgramSendsLine(c: Call)
    ensures Sent(Program(c)) == c.prefix + [0] + c.message + [0]
  {
    var five := [Console, Console, Console, Console, Console];
    ConsoleSendsNothing(five);
    ConsoleSendsNothing([Console]);
    var prefix, message := SendAll(Counted(c.prefix)), SendAll(Counted(c.message));
    SentAll(Counted(c.prefix));
    SentAll(Counted(c.message));
    SentConcat(five, prefix);
    SentConcat(five + prefix, [Console]);
    SentConcat(five + prefix + [Console], message);
    assert Sent(Program(c)) == [] + (c.prefix + [0]) + [] + (c.message + [0]);
  }

  lemma {:induction false} SentOneMore(p: seq<Action>, k: nat)
    requires k < |p|
    ensures Sent(p[..k + 1]) == Sent(p[..k]) + if p[k].Serial? then [p[k].byte] else []
  {
    assert p[..k + 1][..k] == p[..k];
  }

  /** Keeping, taking or releasing a lock keeps it exclusive. */
  lemma {:induction false} GuardsUpdate(flag: bool, holds: Pc -> bool, pcs: seq<Pc>, i: nat, pc: Pc, flag': bool)
    requires Guards(flag, holds, pcs) && i < |pcs|
    requires
      || (flag' == flag && (holds(pc) <==> holds(pcs[i])))
      || (!flag && flag' && holds(pc))
      || (!flag' && holds(pcs[i]) && !holds(pc))
    ensures Guards(flag', holds, pcs[i := pc])
  {
    if flag' {
      var j :| 0 <= j < |pcs| && holds(pcs[i := pc][j]) by {
        if flag {
          var k :| 0 <= k < |pcs| && holds(pcs[k]);
          assert holds(pcs[i := pc][k]);
        } else {
          assert holds(pcs[i := pc][i]);
        }
      }
    }
  }

  lemma {:induction false} StepExclusive(s: State, i: nat, wish: Wish)
    requires Inv(s) && i < |s.pcs|
    ensures Exclusive(Step(s, i, wish))
  {
    var s' := Step(s, i, wish);
    var pc := s'.pcs[i];
    assert WellPlaced(s.pcs[i]);
    assert s'.pcs == s.pcs[i := pc];
    GuardsUpdate(s.logger, HoldsLogger, s.pcs, i, pc, s'.logger);
    GuardsUpdate(s.console, HoldsConsole, s.pcs, i, pc, s'.console);
  }

  lemma {:induction false} OnlyLogger(s: State, i: nat)
    requires Exclusive(s) && i < |s.pcs| && s.pcs[i].Logging?
    ensures s.logger
    ensures forall j | 0 <= j < |s.pcs| && j != i :: !s.pcs[j].Logging?
  {
    assert HoldsLogger(s.pcs[i]);
    forall j | 0 <= j < |s.pcs| && HoldsLogger(s.pcs[j]) ensures j == i { }
    assert forall j | 0 <= j < |s.pcs| && j != i :: !HoldsLogger(s.pcs[j]);
  }

  lemma {:induction false} NoLogger(s: State)
    requires Exclusive(s) && !s.logger
    ensures forall j | 0 <= j < |s.pcs| :: !s.pcs[j].Logging?
  {
    assert forall j | 0 <= j < |s.pcs| :: !HoldsLogger(s.pcs[j]);
  }

  /** Releasing the logger lock leaves a whole line behind. */
  lemma {:induction false} LineDone(s: State, i: nat, wish: Wish)
    requires Inv(s) && i < |s.pcs| && s.pcs[i].Logging? && s.pcs[i].k == |Program(s.pcs[i].call)|
    ensures WholeLines(Step(s, i, wish))
  {
    OnlyLogger(s, i);
    assert WellPlaced(s.pcs[i]);
    ProgramSendsLine(s.pcs[i].call);
    assert Program(s.pcs[i].call)[..s.pcs[i].k] == Program(s.pcs[i].call);
  }

  /** The serial trace after one action of the thread that holds the logger lock. */
  lemma {:induction false} LineGrows(s: State, i: nat, wish: Wish)
    requires Inv(s) && i < |s.pcs| && s.pcs[i].Logging? && s.pcs[i].k < |Program(s.pcs[i].call)|
    ensures WholeLines(Step(s, i, wish))
  {
    OnlyLogger(s, i);
    assert WellPlaced(s.pcs[i]);
    SentOneMore(Program(s.pcs[i].call), s.pcs[i].k);
  }

  /** Taking the logger lock begins a line. */
  lemma {:induction false} LineBegins(s: State, i: nat, wish: Wish)
    requires Inv(s) && i < |s.pcs| && s.pcs[i].Waiting? && !s.logger
    ensures WholeLines(Step(s, i, wish))
  {
    var s' := Step(s, i, wish);
    assert s'.order[..|s'.order| - 1] == s.order;
    NoLogger(s);
    assert Program(s.pcs[i].call)[..0] == [];
  }

  /** Everything else leaves logger, lines and trace alone. */
  lemma {:induction false} StepElsewhere(s: State, i: nat, wish: Wish)
    requires Inv(s) && i < |s.pcs| && !s.pcs[i].Logging? && !(s.pcs[i].Waiting? && !s.logger)
    ensures WholeLines(Step(s, i, wish))
  {
    var s' := Step(s, i, wish);
    assert s'.logger == s.logger && s'.order == s.order && s'.serial == s.serial && !s'.pcs[i].Logging?;
  }

  lemma {:induction false} StepWellPlaced(s: State, i: nat, wish: Wish)
    requires i < |s.pcs| && WellPlaced(s.pcs[i])
    ensures WellPlaced(Step(s, i, wish).pcs[i])
    ensures Step(s, i, wish).pcs == s.pcs[i := Step(s, i, wish).pcs[i]]
  {
  }

  lemma {:induction false} StepKeeps(s: State, i: nat, wish: Wish)
    requires Inv(s) && i < |s.pcs|
    ensures Inv(Step(s, i, wish))
  {
    StepExclusive(s, i, wish);
    StepWellPlaced(s, i, wish);
    if s.pcs[i].Logging? {
      assert WellPlaced(s.pcs[i]);
      if s.pcs[i].k == |Program(s.pcs[i].call)| {
        LineDone(s, i, wish);
      } else {
        LineGrows(s, i, wish);
      }
    } else if s.pcs[i].Waiting? && !s.logger {
      LineBegins(s, i, wish);
    } else {
      StepElsewhere(s, i, wish);
    }
  }

  /**
    For every interleaving both locks are mutually exclusive and the serial trace consists of whole
    lines in the order the logger lock was taken, plus at most a part of the holder's line.
    */
  lemma {:induction false} RunKeeps(s: State, turns: seq<Turn>, s': State)
    requires Inv(s) && Run(s, turns, s')
    ensures Inv(s')
    decreases |turns|
  {
    if turns != [] {
      StepKeeps(s, turns[0].i, turns[0].wish);
      RunKeeps(Step(s, turns[0].i, turns[0].wish), turns[1..], s');
    }
  }

  lemma {:induction false} EveryInterleaving(n: nat, turns: seq<Turn>, s: State)
    requires Run(Initial(n), turns, s)
    ensures Exclusive(s) && WholeLines(s)
  {
    RunKeeps(Initial(n), turns, s);
  }

  lemma {:induction false} PartOfLine(c: Call, k: nat)
    requires k <= |Program(c)|
    ensures Sent(Program(c)[..k]) <= Line(c)
  {
    var p := Program(c);
    ProgramSendsLine(c);
    SentConcat(p[..k], p[k..]);
    assert p[..k] + p[k..] == p;
  }

  /** The trace is at any time a beginning of the whole lines. */
  lemma {:induction false} TraceIsBeginning(n: nat, turns: seq<Turn>, s: State)
    requires Run(Initial(n), turns, s)
    ensures s.serial <= Lines(s.order)
  {
    EveryInterleaving(n, turns, s);
    if s.logger {
      var i :| 0 <= i < |s.pcs| && HoldsLogger(s.pcs[i]);
      PartOfLine(s.pcs[i].call, s.pcs[i].k);
    }
  }

  // ------------------------------------------------------------------------------------------
  // Reading the trace

  /** The strings of a trace, each ended by a NUL; the last one is what follows the last NUL. */
  ghost function Strings(bytes: seq<nat>): (r: seq<seq<nat>>)
    ensures r != []
  {
    if bytes == [] then [[]]
    else
      var front, last := Strings(bytes[..|bytes| - 1]), bytes[|bytes| - 1];
      if last == 0 then front + [[]] else front[|front| - 1 := front[|front| - 1] + [last]]
  }

  /** What the calls say, in order. */
  ghost function Said(calls: seq<Call>): (r: seq<seq<nat>>)
    ensures |r| == 2 * |calls|
    ensures forall k | 0 <= k < |calls| :: r[2 * k] == calls[k].prefix && r[2 * k + 1] == calls[k].message
  {
    if calls == [] then []
    else
      var n := |calls| - 1;
      Said(calls[..n]) + [calls[n].prefix, calls[n].message]
  }

  lemma {:induction false} StringsOfText(b: seq<nat>, t: seq<nat>)
    requires 0 !in t
    ensures var s := Strings(b); Strings(b + t) == s[|s| - 1 := s[|s| - 1] + t]
    decreases |t|
  {
    var s := Strings(b);
    if t == [] {
      assert b + t == b && s[|s| - 1] + t == s[|s| - 1];
    } else {
      var n := |t| - 1;
      assert (b + t)[..|b + t| - 1] == b + t[..n];
      StringsOfText(b, t[..n]);
      assert s[|s| - 1] + t[..n] + [t[n]] == s[|s| - 1] + t;
    }
  }

  /** A text and its NUL behind a NUL. */
  lemma {:induction false} StringsOfCounted(b: seq<nat>, before: seq<seq<nat>>, t: seq<nat>)
    requires Strings(b) == before + [[]] && 0 !in t
    ensures Strings(b + t + [0]) == before + [t] + [[]]
  {
    StringsOfText(b, t);
    assert (b + t + [0])[..|b + t|] == b + t;
    assert [] + t == t;
    assert (before + [[]])[|before| := t] == before + [t];
  }

  lemma {:induction false} StringsOfLine(b: seq<nat>, before: seq<seq<nat>>, c: Call)
    requires Strings(b) == before + [[]]
    ensures Strings(b + Line(c)) == before + [c.prefix, c.message] + [[]]
  {
    StringsOfCounted(b, before, c.prefix);
    StringsOfCounted(b + c.prefix + [0], before + [c.prefix], c.message);
    assert b + Line(c) == b + c.prefix + [0] + c.message + [0];
    assert before + [c.prefix] + [c.message] == before + [c.prefix, c.message];
  }

  lemma {:induction false} StringsOfLines(calls: seq<Call>)
    ensures Strings(Lines(calls)) == Said(calls) + [[]]
    decreases |calls|
  {
    if calls != [] {
      var n := |calls| - 1;
      StringsOfLines(calls[..n]);
      StringsOfLine(Lines(calls[..n]), Said(calls[..n]), calls[n]);
    }
  }

  /**
    Whenever the logger lock is free, the calls can be read off the serial trace: cut at its NULs, it
    is the prefix and the message of each call, in the order in which the lock was taken.
    */
  lemma {:induction false} TraceReadsBack(n: nat, turns: seq<Turn>, s: State)
    requires Run(Initial(n), turns, s) && !s.logger
    ensures var strings := Strings(s.serial);
      && |strings| == 2 * |s.order| + 1 && strings[2 * |s.order|] == []
      && forall k | 0 <= k < |s.order| ::
           strings[2 * k] == s.order[k].prefix && strings[2 * k + 1] == s.order[k].message
  {
    EveryInterleaving(n, turns, s);
    StringsOfLines(s.order);
  }

  /** Every line carries two NULs to the serial port, so a trace of n whole lines holds 2 n of them. */
  lemma {:induction false} LinesCarryNuls(calls: seq<Call>)
    ensures multiset(Lines(calls))[0] == 2 * |calls|
    decreases |calls|
  {
    if calls != [] {
      var n := |calls| - 1;
      LinesCarryNuls(calls[..n]);
      LineNuls(calls[n]);
    }
  }

  lemma {:induction false} LineNuls(c: Call)
    ensures multiset(Line(c))[0] == 2
  {
    assert multiset(c.prefix)[0] == 0 && multiset(c.message)[0] == 0;
  }

  lemma {:induction false} TraceCarriesNuls(n: nat, turns: seq<Turn>, s: State)
    requires Run(Initial(n), turns, s) && !s.logger
    ensures multiset(s.serial)[0] == 2 * |s.order|
  {
    EveryInterleaving(n, turns, s);
    LinesCarryNuls(s.order);
  }

  // ------------------------------------------------------------------------------------------
  // No circular wait

  /** Steps the thread still has to take to finish what it is doing, not counting waiting. */
  ghost function Remaining(pc: Pc): nat {
    match pc
    case Idle => 0
    case Waiting(call) => 3 * |Program(call)| + 2
    case Logging(call, k, section) =>
      if k >= |Program(call)| then 1
      else 3 * (|Program(call)| - k) + 1 - (if section.Outside? then 0 else if section.Locked? then 1 else 2)
    case WantConsole => 3
    case InConsole(section) => if section.Locked? then 2 else 1
  }

  ghost function Work(pcs: seq<Pc>): nat {
    if pcs == [] then 0 else Work(pcs[..|pcs| - 1]) + Remaining(pcs[|pcs| - 1])
  }

  /** Thread i is spinning: its step leaves everything as it is. */
  ghost predicate Blocked(s: State, i: nat)
    requires i < |s.pcs|
  {
    match s.pcs[i]
    case Waiting(_) => s.logger
    case Logging(call, k, section) => section.Outside? && k < |Program(call)| && Program(call)[k].Console? && s.console
    case WantConsole => s.console
    case _ => false
  }

  lemma {:induction false} WorkUpdate(pcs: seq<Pc>, i: nat, pc: Pc)
    requires i < |pcs|
    ensures Work(pcs[i := pc]) == Work(pcs) - Remaining(pcs[i]) + Remaining(pc)
    decreases |pcs|
  {
    var n := |pcs| - 1;
    if i < n {
      assert pcs[i := pc][..n] == pcs[..n][i := pc];
      WorkUpdate(pcs[..n], i, pc);
    } else {
      assert pcs[i := pc][..n] == pcs[..n];
    }
  }

  /** A thread that is busy and not spinning brings the work down. */
  lemma {:induction false} StepWorks(s: State, i: nat, wish: Wish)
    requires Inv(s) && i < |s.pcs| && !s.pcs[i].Idle? && !Blocked(s, i)
    ensures Work(Step(s, i, wish).pcs) < Work(s.pcs)
  {
    var s' := Step(s, i, wish);
    assert WellPlaced(s.pcs[i]);
    WorkUpdate(s.pcs, i, s'.pcs[i]);
    assert s'.pcs == s.pcs[i := s'.pcs[i]];
  }

  /**
    The order logger before console admits no circular wait: whenever a thread is busy, some busy
    thread is not spinning. It is the one in a console section, else the one holding the logger lock,
    else any.
    */
  lemma {:induction false} SomeoneMoves(s: State, w: nat) returns (i: nat)
    requires Inv(s) && w < |s.pcs| && !s.pcs[w].Idle?
    ensures i < |s.pcs| && !s.pcs[i].Idle? && !Blocked(s, i)
  {
    if s.console {
      i :| 0 <= i < |s.pcs| && HoldsConsole(s.pcs[i]);
      assert WellPlaced(s.pcs[i]);
    } else if s.logger {
      i :| 0 <= i < |s.pcs| && HoldsLogger(s.pcs[i]);
    } else {
      i := w;
    }
  }

  /** From every reachable state all calls can be finished, and then the trace is whole lines only. */
  lemma {:induction false} Drains(s: State) returns (turns: seq<Turn>, s': State)
    requires Inv(s)
    ensures Run(s, turns, s') && Inv(s')
    ensures forall i | 0 <= i < |s'.pcs| :: s'.pcs[i].Idle?
    ensures s'.serial == Lines(s'.order)
    decreases Work(s.pcs)
  {
    if exists w :: 0 <= w < |s.pcs| && !s.pcs[w].Idle? {
      var w :| 0 <= w < |s.pcs| && !s.pcs[w].Idle?;
      var i := SomeoneMoves(s, w);
      StepWorks(s, i, Rest);
      StepKeeps(s, i, Rest);
      var rest;
      rest, s' := Drains(Step(s, i, Rest));
      turns := [Turn(i, Rest)] + rest;
      assert turns[1..] == rest;
    } else {
      turns, s' := [], s;
    }
  }
}

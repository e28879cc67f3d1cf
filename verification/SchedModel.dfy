/**
  The round-robin scheduler of kernel/src/arch/x86_64/sched.c as a value, and what it guarantees
  over every run.
  */
module SchedModel {
  import opened Words

  datatype Status = READY | RUNNING | DEAD

  /** stackframe (kernel/src/arch/x86_64/_arch.h) */
  datatype Frame = Frame(
    r15: U64, r14: U64, r13: U64, r12: U64, r11: U64, r10: U64, r9: U64, r8: U64,
    rbp: U64, rdi: U64, rsi: U64, rdx: U64, rcx: U64, rbx: U64, rax: U64,
    vector: U64, err: U64, rip: U64, cs: U64, rflags: U64, rsp: U64, ss: U64)

  datatype Thread = Thread(tid: U64, status: Status, context: Frame)

  /**
    Threads and processes are numbered in order of creation. `lists` holds the thread list of each
    process, `chain` the processes linked from the list head, `pos` the current process's place in
    the chain and `cur` the current thread's place in that process's list.
    */
  datatype Sched = Sched(threads: seq<Thread>, lists: seq<seq<nat>>, chain: seq<nat>, pos: nat, cur: nat)

  ghost predicate WellFormed(s: Sched) {
    && (forall p, j | 0 <= p < |s.lists| && 0 <= j < |s.lists[p]| :: s.lists[p][j] < |s.threads|)
    && (forall c | 0 <= c < |s.chain| :: s.chain[c] < |s.lists|)
    && (forall c, d | 0 <= c < d < |s.chain| :: s.chain[c] != s.chain[d])
    && s.pos < |s.chain| && s.cur < |s.lists[s.chain[s.pos]]|
  }

  ghost function CurrentList(s: Sched): seq<nat>
    requires WellFormed(s)
  {
    s.lists[s.chain[s.pos]]
  }

  /** The current thread. */
  ghost function Current(s: Sched): (t: nat)
    requires WellFormed(s)
    ensures t < |s.threads|
  {
    CurrentList(s)[s.cur]
  }

  // ------------------------------------------------------------------------------------------
  // Specification of schedule

  /** The first thread of a list that is not DEAD, or the length of the list. */
  ghost function FirstLive(threads: seq<Thread>, list: seq<nat>): (j: nat)
    requires forall i | 0 <= i < |list| :: list[i] < |threads|
    ensures j <= |list| && (j < |list| ==> !threads[list[j]].status.DEAD?)
    ensures forall i | 0 <= i < j :: threads[list[i]].status.DEAD?
  {
    if list == [] then 0
    else if !threads[list[0]].status.DEAD? then 0
    else 1 + FirstLive(threads, list[1..])
  }

  ghost predicate Live(s: Sched, c: nat)
    requires WellFormed(s) && c < |s.chain|
  {
    exists j :: 0 <= j < |s.lists[s.chain[c]]| && !s.threads[s.lists[s.chain[c]][j]].status.DEAD?
  }

  /** The next process in the chain, from the end back to the head. */
  ghost function After(c: nat, n: nat): nat {
    if c + 1 < n then c + 1 else 0
  }

  /** How far the search still has to go to come back to the process it started from. */
  ghost function Ahead(c: nat, pos: nat, n: nat): int {
    if c < pos then pos - c else pos + n - c
  }

  lemma {:induction false} AheadShrinks(c: nat, pos: nat, n: nat)
    requires c < n && pos < n && After(c, n) != pos
    ensures 0 < Ahead(After(c, n), pos, n) < Ahead(c, pos, n)
  {
  }

  /** The search of `schedule`: the next process after c with a thread that is not DEAD. */
  ghost function NextLive(s: Sched, c: nat): (d: nat)
    requires WellFormed(s) && c < |s.chain| && Live(s, s.pos)
    ensures d < |s.chain| && Live(s, d)
    decreases Ahead(c, s.pos, |s.chain|)
  {
    var d := After(c, |s.chain|);
    if Live(s, d) then d else NextLive(s, d)
  }

  /** The preempted thread's frame is saved and it becomes READY, whatever it was before. */
  ghost function Save(s: Sched, sf: Frame): (r: Sched)
    requires WellFormed(s)
    ensures WellFormed(r) && Live(r, r.pos)
  {
    var t := Current(s);
    var r := s.(threads := s.threads[t := s.threads[t].(context := sf, status := READY)]);
    assert !r.threads[r.lists[r.chain[r.pos]][s.cur]].status.DEAD?;
    r
  }

  /** Process c of the chain takes over with its first thread that is not DEAD. */
  ghost function Switch(s: Sched, c: nat): (r: Sched)
    requires WellFormed(s) && c < |s.chain| && Live(s, c)
    ensures WellFormed(r) && r.pos == c
  {
    var list := s.lists[s.chain[c]];
    var j := FirstLive(s.threads, list);
    s.(threads := s.threads[list[j] := s.threads[list[j]].(status := RUNNING)], pos := c, cur := j)
  }

  /** `schedule`: the new state and the frame to return to. */
  ghost function Schedule(s: Sched, sf: Frame): (r: (Sched, Frame))
    requires WellFormed(s)
    ensures WellFormed(r.0)
  {
    var s1 := Save(s, sf);
    var s2 := Switch(s1, NextLive(s1, s.pos));
    (s2, s2.threads[Current(s2)].context)
  }

  /** The registers `sched_new_thread` sets, on top of whatever the fresh memory held. */
  ghost function InitialContext(memory: Frame, stack: U64, entry: U64): Frame {
    memory.(ss := 0x10, rsp := stack, rflags := 0x202, cs := 0x08, rip := entry, rbp := 0)
  }

  /** `sched_new`: the chain is cut after the current process and ends in the new one. */
  ghost function NewProcess(s: Sched): (r: Sched)
    requires WellFormed(s)
    ensures WellFormed(r)
  {
    s.(lists := s.lists + [[]], chain := s.chain[..s.pos + 1] + [|s.lists|])
  }

  /** `sched_new_thread`: a READY thread at the end of process p's list. */
  ghost function NewThread(s: Sched, p: nat, thread: Thread): (r: Sched)
    requires WellFormed(s) && p < |s.lists|
    ensures WellFormed(r)
  {
    s.(threads := s.threads + [thread], lists := s.lists[p := s.lists[p] + [|s.threads|]])
  }

  // ------------------------------------------------------------------------------------------
  // Runs

  /** A timer tick, a new process or thread, or a thread marked DEAD from outside. */
  datatype Op =
    | Tick(sf: Frame)
    | Spawn
    | SpawnThread(p: nat, tid: U64, memory: Frame, stack: U64, entry: U64)
    | Kill(t: nat)

  datatype Event = Created(t: nat, frame: Frame) | Preempted(t: nat, frame: Frame) | Resumed(t: nat, frame: Frame)

  ghost predicate Legal(s: Sched, op: Op) {
    match op
    case SpawnThread(p, _, _, _, _) => p < |s.lists|
    case Kill(t) => t < |s.threads|
    case _ => true
  }

  ghost function Step(s: Sched, op: Op): (r: Sched)
    requires WellFormed(s) && Legal(s, op)
    ensures WellFormed(r)
  {
    match op
    case Tick(sf) => Schedule(s, sf).0
    case Spawn => NewProcess(s)
    case SpawnThread(p, tid, memory, stack, entry) =>
      NewThread(s, p, Thread(tid, READY, InitialContext(memory, stack, entry)))
    case Kill(t) => s.(threads := s.threads[t := s.threads[t].(status := DEAD)])
  }

  ghost function Events(s: Sched, op: Op): seq<Event>
    requires WellFormed(s) && Legal(s, op)
  {
    match op
    case Tick(sf) =>
      var (s', out) := Schedule(s, sf);
      [Preempted(Current(s), sf), Resumed(Current(s'), out)]
    case SpawnThread(_, _, memory, stack, entry) => [Created(|s.threads|, InitialContext(memory, stack, entry))]
    case _ => []
  }

  /** A run from s to s' that shows the given events. */
  ghost predicate Run(s: Sched, ops: seq<Op>, s': Sched, trace: seq<Event>)
    requires WellFormed(s)
    decreases |ops|
  {
    if ops == [] then s' == s && trace == []
    else
      && Legal(s, ops[0]) && Events(s, ops[0]) <= trace
      && Run(Step(s, ops[0]), ops[1..], s', trace[|Events(s, ops[0])|..])
  }

  // ------------------------------------------------------------------------------------------
  // Exactly one thread runs

  /** No thread but the current one is RUNNING. */
  ghost predicate NoOtherRunning(s: Sched)
    requires WellFormed(s)
  {
    forall t | 0 <= t < |s.threads| && t != Current(s) :: !s.threads[t].status.RUNNING?
  }

  /** `schedule` leaves exactly one thread RUNNING: the one whose frame it returns to. */
  lemma {:induction false} ScheduleRunsOne(s: Sched, sf: Frame)
    requires WellFormed(s) && NoOtherRunning(s)
    ensures var s' := Schedule(s, sf).0;
      forall t | 0 <= t < |s'.threads| :: s'.threads[t].status.RUNNING? <==> t == Current(s')
  {
    var s1 := Save(s, sf);
    var s' := Switch(s1, NextLive(s1, s.pos));
    assert s' == Schedule(s, sf).0;
    assert forall t | 0 <= t < |s1.threads| :: !s1.threads[t].status.RUNNING?;
  }

  lemma {:induction false} StepRunsOne(s: Sched, op: Op)
    requires WellFormed(s) && Legal(s, op) && NoOtherRunning(s)
    ensures NoOtherRunning(Step(s, op))
  {
    match op
    case Tick(sf) => ScheduleRunsOne(s, sf);
    case Spawn => assert Current(NewProcess(s)) == Current(s);
    case SpawnThread(p, tid, memory, stack, entry) =>
      assert Current(NewThread(s, p, Thread(tid, READY, InitialContext(memory, stack, entry)))) == Current(s);
    case Kill(t) =>
  }

  /** Over every run at most the current thread is RUNNING. */
  lemma {:induction false} RunRunsOne(s: Sched, ops: seq<Op>, s': Sched, trace: seq<Event>)
    requires WellFormed(s) && NoOtherRunning(s) && Run(s, ops, s', trace)
    ensures WellFormed(s') && NoOtherRunning(s')
    decreases |ops|
  {
    if ops != [] {
      StepRunsOne(s, ops[0]);
      RunRunsOne(Step(s, ops[0]), ops[1..], s', trace[|Events(s, ops[0])|..]);
    }
  }

  /** After `schedule` a thread is DEAD exactly when it was and was not the one preempted. */
  lemma {:induction false} DeadAfterIff(s: Sched, sf: Frame, t: nat)
    requires WellFormed(s) && t < |s.threads|
    ensures Schedule(s, sf).0.threads[t].status.DEAD? <==> s.threads[t].status.DEAD? && t != Current(s)
  {
    var s1 := Save(s, sf);
    var s' := Switch(s1, NextLive(s1, s.pos));
    assert !s1.threads[Current(s')].status.DEAD?;
  }

  /** The preempted thread is READY, or RUNNING if it is also the next, even if it was marked DEAD. */
  lemma {:induction false} PreemptionRevives(s: Sched, sf: Frame)
    requires WellFormed(s) && s.threads[Current(s)].status.DEAD?
    ensures !Schedule(s, sf).0.threads[Current(s)].status.DEAD?
  {
    DeadAfterIff(s, sf, Current(s));
  }

  lemma {:induction false} DeadStep(s: Sched, op: Op, t: nat)
    requires WellFormed(s) && Legal(s, op) && t < |s.threads|
    requires s.threads[t].status.DEAD? && t != Current(s)
    ensures var s' := Step(s, op);
      t < |s'.threads| && s'.threads[t].status.DEAD? && t != Current(s')
    ensures forall e <- Events(s, op) :: e.Resumed? ==> e.t != t
  {
    match op
    case Tick(sf) =>
      DeadAfterIff(s, sf, t);
      LiveAfter(s, sf);
    case Spawn => assert Current(NewProcess(s)) == Current(s);
    case SpawnThread(p, tid, memory, stack, entry) =>
      assert Current(NewThread(s, p, Thread(tid, READY, InitialContext(memory, stack, entry)))) == Current(s);
    case Kill(_) =>
  }

  lemma {:induction false} LiveAfter(s: Sched, sf: Frame)
    requires WellFormed(s)
    ensures var s' := Schedule(s, sf).0; !s'.threads[Current(s')].status.DEAD?
  {
  }

  /**
    Over every run a thread that is DEAD when it is not current stays DEAD and is never resumed: only
    a thread marked DEAD while it runs comes back.
    */
  lemma {:induction false} DeadStaysDead(s: Sched, ops: seq<Op>, s': Sched, trace: seq<Event>, t: nat)
    requires WellFormed(s) && Run(s, ops, s', trace) && t < |s.threads|
    requires s.threads[t].status.DEAD? && t != Current(s)
    ensures t < |s'.threads| && s'.threads[t].status.DEAD?
    ensures forall e <- trace :: e.Resumed? ==> e.t != t
    decreases |ops|
  {
    if ops != [] {
      var n := |Events(s, ops[0])|;
      DeadStep(s, ops[0], t);
      DeadStaysDead(Step(s, ops[0]), ops[1..], s', trace[n..], t);
      forall e <- trace ensures e.Resumed? ==> e.t != t {
        assert trace == trace[..n] + trace[n..];
      }
    }
  }

  /** `sched_new` drops the part of the chain after the current process. */
  lemma {:induction false} NewProcessKeepsIff(s: Sched, c: nat)
    requires WellFormed(s) && c < |s.chain|
    ensures s.chain[c] in NewProcess(s).chain <==> c <= s.pos
  {
    var chain := NewProcess(s).chain;
    if c <= s.pos { assert chain[c] == s.chain[c]; }
  }

  /** After start-up the idle process is chained; the first process the kernel makes then drops it. */
  lemma {:induction false} IdleIsDropped(memory: Frame, status: Status, idle: Thread)
    ensures var s0 := Sched([Thread(0xffff_ffff_ffff_ffff, status, memory)], [[0]], [0], 0, 0);
      var s1 := NewThread(NewProcess(s0), 1, idle);
      s1.chain == [0, 1] && NewProcess(s1).chain == [0, 2]
  {
  }

  /** A process that is not in the chain never gets back into it, so none of its threads runs again. */
  lemma {:induction false} DroppedForever(s: Sched, ops: seq<Op>, s': Sched, trace: seq<Event>, p: nat)
    requires WellFormed(s) && Run(s, ops, s', trace) && p < |s.lists| && p !in s.chain
    ensures WellFormed(s') && p < |s'.lists| && p !in s'.chain
    decreases |ops|
  {
    if ops != [] {
      DroppedForever(Step(s, ops[0]), ops[1..], s', trace[|Events(s, ops[0])|..], p);
    }
  }

  // ------------------------------------------------------------------------------------------
  // Register frames survive

  /** The frame a thread must be resumed with: its last one saved or, before that, the one it was created with. */
  ghost function Expected(s: Sched, trace: seq<Event>, t: nat): Frame
    decreases |trace|
  {
    if trace == [] then (if t < |s.threads| then s.threads[t].context else InitialContext(Zero(), 0, 0))
    else
      var last := trace[|trace| - 1];
      if !last.Resumed? && last.t == t then last.frame else Expected(s, trace[..|trace| - 1], t)
  }

  ghost function Zero(): Frame {
    Frame(0, 0, 0, 0, 0, 0, 0, 0, 0, 0, 0, 0, 0, 0, 0, 0, 0, 0, 0, 0, 0, 0)
  }

  /** The contexts in memory are the expected ones, except the current thread's, which is stale. */
  ghost predicate Kept(s0: Sched, s: Sched, trace: seq<Event>) {
    forall t | 0 <= t < |s.threads| :: s.threads[t].context == Expected(s0, trace, t)
  }

  ghost function LastResumed(trace: seq<Event>, first: nat): nat
    decreases |trace|
  {
    if trace == [] then first
    else if trace[|trace| - 1].Resumed? then trace[|trace| - 1].t
    else LastResumed(trace[..|trace| - 1], first)
  }

  lemma {:induction false} OneMore(s0: Sched, trace: seq<Event>, e: Event, t: nat, first: nat)
    ensures Expected(s0, trace + [e], t) == if !e.Resumed? && e.t == t then e.frame else Expected(s0, trace, t)
    ensures LastResumed(trace + [e], first) == if e.Resumed? then e.t else LastResumed(trace, first)
  {
    assert (trace + [e])[..|trace|] == trace;
  }

  /** Event e, coming after the trace, is the right one. */
  ghost predicate Right(s0: Sched, trace: seq<Event>, e: Event)
    requires WellFormed(s0)
  {
    && (e.Resumed? ==> e.frame == Expected(s0, trace, e.t))
    && (e.Preempted? ==> e.t == LastResumed(trace, Current(s0)))
  }

  ghost predicate Tracked(s0: Sched, s: Sched, trace: seq<Event>)
    requires WellFormed(s0) && WellFormed(s)
  {
    Kept(s0, s, trace) && LastResumed(trace, Current(s0)) == Current(s)
  }

  lemma {:induction false} TickTracks(s0: Sched, s: Sched, sf: Frame, trace: seq<Event>)
    requires WellFormed(s0) && WellFormed(s) && Tracked(s0, s, trace)
    ensures var e1, e2 := Events(s, Tick(sf))[0], Events(s, Tick(sf))[1];
      && Right(s0, trace, e1) && Right(s0, trace + [e1], e2)
      && Tracked(s0, Step(s, Tick(sf)), trace + [e1] + [e2])
  {
    var e1, e2 := Events(s, Tick(sf))[0], Events(s, Tick(sf))[1];
    var s1, s' := Save(s, sf), Step(s, Tick(sf));
    forall t | 0 <= t < |s.threads|
      ensures s1.threads[t].context == Expected(s0, trace + [e1], t)
      ensures s'.threads[t].context == Expected(s0, trace + [e1] + [e2], t)
    {
      OneMore(s0, trace, e1, t, Current(s0));
      OneMore(s0, trace + [e1], e2, t, Current(s0));
    }
    OneMore(s0, trace + [e1], e2, 0, Current(s0));
  }

  lemma {:induction false} SpawnTracks(s0: Sched, s: Sched, op: Op, trace: seq<Event>)
    requires WellFormed(s0) && WellFormed(s) && Tracked(s0, s, trace) && Legal(s, op) && !op.Tick?
    ensures Tracked(s0, Step(s, op), trace + Events(s, op))
  {
    if op.SpawnThread? {
      var e := Created(|s.threads|, InitialContext(op.memory, op.stack, op.entry));
      forall t | 0 <= t <= |s.threads| ensures Step(s, op).threads[t].context == Expected(s0, trace + [e], t) {
        OneMore(s0, trace, e, t, Current(s0));
      }
      OneMore(s0, trace, e, 0, Current(s0));
    } else {
      assert trace + [] == trace;
    }
  }

  lemma {:induction false} RunTracks(
    s0: Sched, before: seq<Event>, s: Sched, ops: seq<Op>, s': Sched, trace: seq<Event>, k: nat)
    requires WellFormed(s0) && WellFormed(s) && Tracked(s0, s, before) && Run(s, ops, s', trace) && k < |trace|
    ensures Right(s0, before + trace[..k], trace[k])
    decreases |ops|
  {
    var events := Events(s, ops[0]);
    var n := |events|;
    assert events == trace[..n];
    if k < n {
      FirstEvents(s0, before, s, ops[0], trace, k);
    } else {
      StepTracks(s0, s, ops[0], before);
      RunTracks(s0, before + events, Step(s, ops[0]), ops[1..], s', trace[n..], k - n);
      PrefixSplit(before, trace, n, k);
    }
  }

  lemma {:induction false} FirstEvents(s0: Sched, before: seq<Event>, s: Sched, op: Op, trace: seq<Event>, k: nat)
    requires WellFormed(s0) && WellFormed(s) && Tracked(s0, s, before) && Legal(s, op)
    requires k < |Events(s, op)| <= |trace| && Events(s, op) == trace[..|Events(s, op)|]
    ensures Right(s0, before + trace[..k], trace[k])
  {
    StepTracks(s0, s, op, before);
    PrefixOfPrefix(trace, |Events(s, op)|, k);
  }

  lemma {:induction false} PrefixOfPrefix<T>(trace: seq<T>, n: nat, k: nat)
    requires k < n <= |trace|
    ensures trace[..n][..k] == trace[..k] && trace[..n][k] == trace[k]
  {
  }

  lemma {:induction false} PrefixSplit<T>(before: seq<T>, trace: seq<T>, n: nat, k: nat)
    requires n <= k < |trace|
    ensures before + trace[..n] + trace[n..][..k - n] == before + trace[..k] && trace[n..][k - n] == trace[k]
  {
    assert trace[..k] == trace[..n] + trace[n..][..k - n];
  }

  lemma {:induction false} StepTracks(s0: Sched, s: Sched, op: Op, trace: seq<Event>)
    requires WellFormed(s0) && WellFormed(s) && Tracked(s0, s, trace) && Legal(s, op)
    ensures Tracked(s0, Step(s, op), trace + Events(s, op))
    ensures forall k | 0 <= k < |Events(s, op)| :: Right(s0, trace + Events(s, op)[..k], Events(s, op)[k])
  {
    var events := Events(s, op);
    if op.Tick? {
      TickTracks(s0, s, op.sf, trace);
      assert trace + events[..0] == trace;
      assert trace + events[..1] == trace + [events[0]];
      assert trace + [events[0]] + [events[1]] == trace + events;
    } else {
      SpawnTracks(s0, s, op, trace);
      assert trace + events[..0] == trace;
    }
  }

  /**
    Over every run, a thread is resumed with exactly the frame saved when it was last preempted, or
    the context it was created with if that has not happened, whatever ran in between; and the
    thread preempted is the one resumed last.
    */
  lemma {:induction false} FramesSurvive(s: Sched, ops: seq<Op>, s': Sched, trace: seq<Event>, k: nat)
    requires WellFormed(s) && Run(s, ops, s', trace) && k < |trace|
    ensures trace[k].Resumed? ==> trace[k].frame == Expected(s, trace[..k], trace[k].t)
    ensures trace[k].Preempted? ==> trace[k].t == LastResumed(trace[..k], Current(s))
  {
    RunTracks(s, [], s, ops, s', trace, k);
    assert [] + trace[..k] == trace[..k];
  }

  /** Threads are numbered as they are created. */
  lemma {:induction false} CreatedLater(s: Sched, ops: seq<Op>, s': Sched, trace: seq<Event>, k: nat)
    requires WellFormed(s) && Run(s, ops, s', trace) && k < |trace| && trace[k].Created?
    ensures trace[k].t >= |s.threads|
    decreases |ops|
  {
    var n := |Events(s, ops[0])|;
    if k >= n {
      CreatedLater(Step(s, ops[0]), ops[1..], s', trace[n..], k - n);
    } else {
      assert trace[k] == Events(s, ops[0])[k];
    }
  }

  lemma {:induction false} ResumedBefore(trace: seq<Event>, first: nat, t: nat)
    requires LastResumed(trace, first) == t != first
    ensures exists j :: 0 <= j < |trace| && trace[j].Resumed? && trace[j].t == t
    decreases |trace|
  {
    if !trace[|trace| - 1].Resumed? {
      ResumedBefore(trace[..|trace| - 1], first, t);
    }
  }

  /** A frame nothing else was saved over. */
  lemma {:induction false} ExpectedFirst(s: Sched, trace: seq<Event>, t: nat)
    requires trace != [] && trace[0].Created? && trace[0].t == t
    requires forall j | 0 < j < |trace| :: trace[j].Resumed? || trace[j].t != t
    ensures Expected(s, trace, t) == trace[0].frame
    decreases |trace|
  {
    if |trace| > 1 {
      ExpectedFirst(s, trace[..|trace| - 1], t);
    }
  }

  /**
    Over every run, a new thread is first resumed at its entry point, on its stack, in kernel segments
    with interrupts on, and with the other registers as its memory held them.
    */
  lemma {:induction false} FirstResumed(
    s: Sched, p: nat, tid: U64, memory: Frame, stack: U64, entry: U64, ops: seq<Op>, s': Sched, trace: seq<Event>,
    k: nat)
    requires WellFormed(s) && p < |s.lists| && Run(s, [SpawnThread(p, tid, memory, stack, entry)] + ops, s', trace)
    requires k < |trace| && trace[k].Resumed? && trace[k].t == |s.threads|
    requires forall j | 0 <= j < k && trace[j].Resumed? :: trace[j].t != |s.threads|
    ensures trace[k].frame
      == memory.(rip := entry, rsp := stack, cs := 0x08, ss := 0x10, rflags := 0x202, rbp := 0)
  {
    var t, all := |s.threads|, [SpawnThread(p, tid, memory, stack, entry)] + ops;
    assert all[0] == SpawnThread(p, tid, memory, stack, entry) && all[1..] == ops;
    var first := Events(s, all[0])[0];
    assert trace[0] == first;
    forall j | 0 < j < k ensures trace[..k][j].Resumed? || trace[..k][j].t != t {
      if trace[j].Created? {
        CreatedLater(Step(s, all[0]), ops, s', trace[1..], j - 1);
      } else if trace[j].Preempted? {
        NotYetPreempted(s, all, s', trace, j, t);
      }
    }
    ExpectedFirst(s, trace[..k], t);
    FramesSurvive(s, all, s', trace, k);
  }

  lemma {:induction false} NotYetPreempted(s: Sched, ops: seq<Op>, s': Sched, trace: seq<Event>, j: nat, t: nat)
    requires WellFormed(s) && Run(s, ops, s', trace) && j < |trace| && trace[j].Preempted? && t != Current(s)
    requires forall i | 0 <= i < j && trace[i].Resumed? :: trace[i].t != t
    ensures trace[j].t != t
  {
    FramesSurvive(s, ops, s', trace, j);
    if LastResumed(trace[..j], Current(s)) == t {
      ResumedBefore(trace[..j], Current(s), t);
    }
  }

  // ------------------------------------------------------------------------------------------
  // Round robin

  /** The chain positions from c on whose process has a thread that is not DEAD, in order. */
  ghost function LiveFrom(s: Sched, c: nat): seq<nat>
    requires WellFormed(s)
    decreases |s.chain| - c
  {
    if c >= |s.chain| then [] else (if Live(s, c) then [c] else []) + LiveFrom(s, c + 1)
  }

  lemma {:induction false} LiveFromIs(s: Sched, c: nat)
    requires WellFormed(s)
    ensures var l := LiveFrom(s, c);
      && (forall d :: d in l <==> c <= d < |s.chain| && Live(s, d))
      && (forall i, j | 0 <= i < j < |l| :: l[i] < l[j])
    decreases |s.chain| - c
  {
    if c < |s.chain| {
      LiveFromIs(s, c + 1);
      var rest := LiveFrom(s, c + 1);
      forall i | 0 <= i < |rest| ensures rest[i] > c {
        assert rest[i] in rest;
      }
    }
  }

  /** The search stops at the first live process after c, or wraps around past none. */
  lemma {:induction false} NextLiveIsFirst(s: Sched, c: nat)
    requires WellFormed(s) && c < |s.chain| && Live(s, s.pos)
    ensures var d := NextLive(s, c);
      if c < d then forall e | c < e < d :: !Live(s, e)
      else (forall e | c < e < |s.chain| :: !Live(s, e)) && (forall e | 0 <= e < d :: !Live(s, e))
    decreases Ahead(c, s.pos, |s.chain|)
  {
    var d := After(c, |s.chain|);
    if !Live(s, d) {
      NextLiveIsFirst(s, d);
    }
  }

  lemma {:induction false} NextInList(s: Sched, a: nat)
    requires WellFormed(s) && Live(s, s.pos) && a < |LiveFrom(s, 0)| && LiveFrom(s, 0)[a] == s.pos
    ensures NextLive(s, s.pos) == LiveFrom(s, 0)[After(a, |LiveFrom(s, 0)|)]
  {
    var l, d := LiveFrom(s, 0), NextLive(s, s.pos);
    LiveFromIs(s, 0);
    NextLiveIsFirst(s, s.pos);
    assert d in l;
    var b :| 0 <= b < |l| && l[b] == d;
    assert forall i | 0 <= i < |l| :: l[i] in l;
    if s.pos < d {
      assert a < b;
    }
  }

  /** The set of DEAD threads and the lists are the same. */
  ghost predicate SameLife(s: Sched, s': Sched) {
    && s'.lists == s.lists && s'.chain == s.chain && |s'.threads| == |s.threads|
    && forall t | 0 <= t < |s.threads| :: s'.threads[t].status.DEAD? <==> s.threads[t].status.DEAD?
  }

  lemma {:induction false} SameFirstLive(a: seq<Thread>, b: seq<Thread>, list: seq<nat>)
    requires |a| == |b| && forall i | 0 <= i < |list| :: list[i] < |a|
    requires forall t | 0 <= t < |a| :: a[t].status.DEAD? <==> b[t].status.DEAD?
    ensures FirstLive(a, list) == FirstLive(b, list)
  {
    if list != [] { SameFirstLive(a, b, list[1..]); }
  }

  lemma {:induction false} SameLiveFrom(s: Sched, s': Sched, c: nat)
    requires WellFormed(s) && WellFormed(s') && SameLife(s, s')
    ensures LiveFrom(s', c) == LiveFrom(s, c)
    decreases |s.chain| - c
  {
    if c < |s.chain| {
      SameLiveFrom(s, s', c + 1);
      assert Live(s, c) <==> Live(s', c) by {
        var list := s.lists[s.chain[c]];
        assert forall j | 0 <= j < |list| ::
            s.threads[list[j]].status.DEAD? <==> s'.threads[list[j]].status.DEAD?;
      }
    }
  }

  /** One tick moves to the next live process of the chain, and to its first live thread. */
  lemma {:induction false} TickMoves(s: Sched, sf: Frame, a: nat)
    requires WellFormed(s) && !s.threads[Current(s)].status.DEAD?
    requires a < |LiveFrom(s, 0)| && LiveFrom(s, 0)[a] == s.pos
    ensures var s' := Schedule(s, sf).0;
      && SameLife(s, s') && LiveFrom(s', 0) == LiveFrom(s, 0) && !s'.threads[Current(s')].status.DEAD?
      && s'.pos == LiveFrom(s, 0)[After(a, |LiveFrom(s, 0)|)]
      && s'.cur == FirstLive(s.threads, s.lists[s.chain[s'.pos]])
  {
    var s1, s' := Save(s, sf), Schedule(s, sf).0;
    assert SameLife(s, s1);
    SameLiveFrom(s, s1, 0);
    NextInList(s1, a);
    assert SameLife(s, s');
    SameLiveFrom(s, s', 0);
    SameFirstLive(s.threads, s1.threads, s.lists[s.chain[s'.pos]]);
  }

  /** The state after ticks with the given frames. */
  ghost function Ticks(s: Sched, frames: seq<Frame>): (r: Sched)
    requires WellFormed(s)
    ensures WellFormed(r)
    decreases |frames|
  {
    if frames == [] then s else Schedule(Ticks(s, frames[..|frames| - 1]), frames[|frames| - 1]).0
  }

  lemma {:induction false} CurrentIsLive(s: Sched) returns (a: nat)
    requires WellFormed(s) && !s.threads[Current(s)].status.DEAD?
    ensures a < |LiveFrom(s, 0)| && LiveFrom(s, 0)[a] == s.pos
  {
    LiveFromIs(s, 0);
    assert Live(s, s.pos) by {
      assert !s.threads[s.lists[s.chain[s.pos]][s.cur]].status.DEAD?;
    }
    a :| 0 <= a < |LiveFrom(s, 0)| && LiveFrom(s, 0)[a] == s.pos;
  }

  /** Place a of m, k turns later. */
  ghost function Turn(a: nat, k: nat, m: nat): (r: nat)
    requires a < m
    ensures r < m
    decreases k, a, m
  {
    if k == 0 then a else After(Turn(a, k - 1, m), m)
  }

  /**
    With a fixed set of DEAD threads and no new processes, the processes that have a thread to run
    take turns in chain order, each through its first thread that is not DEAD.
    */
  lemma {:induction false} RoundRobin(s: Sched, frames: seq<Frame>, a: nat)
    requires WellFormed(s) && !s.threads[Current(s)].status.DEAD?
    requires a < |LiveFrom(s, 0)| && LiveFrom(s, 0)[a] == s.pos
    ensures var s' := Ticks(s, frames);
      && SameLife(s, s') && !s'.threads[Current(s')].status.DEAD? && LiveFrom(s', 0) == LiveFrom(s, 0)
      && s'.pos == LiveFrom(s, 0)[Turn(a, |frames|, |LiveFrom(s, 0)|)]
      && (frames != [] ==> s'.cur == FirstLive(s.threads, s.lists[s.chain[s'.pos]]))
    decreases |frames|
  {
    if frames != [] {
      var l, n := LiveFrom(s, 0), |frames|;
      var front := frames[..n - 1];
      RoundRobin(s, front, a);
      var s1 := Ticks(s, front);
      TickMoves(s1, frames[n - 1], Turn(a, n - 1, |l|));
      SameFirstLive(s.threads, s1.threads, s.lists[s.chain[Ticks(s, frames).pos]]);
    }
  }

  lemma {:induction false} TurnWithin(a: nat, k: nat, i: nat, m: nat)
    requires a < m && i < m
    ensures var r := Turn(a, k, m);
      Turn(a, k + i, m) == if r + i < m then r + i else r + i - m
    decreases i
  {
    if i > 0 { TurnWithin(a, k, i - 1, m); }
  }

  /**
    Between two runs of a process every other one that can run does so exactly once: among any m
    consecutive turns, m being the number of processes that can run, each gets exactly one.
    */
  lemma {:induction false} EveryoneOnce(a: nat, k: nat, b: nat, m: nat) returns (i: nat)
    requires a < m && b < m
    ensures k <= i < k + m && Turn(a, i, m) == b
    ensures forall j | k <= j < k + m && Turn(a, j, m) == b :: j == i
  {
    var r := Turn(a, k, m);
    i := k + if b >= r then b - r else b - r + m;
    TurnWithin(a, k, i - k, m);
    forall j | k <= j < k + m && Turn(a, j, m) == b ensures j == i {
      TurnWithin(a, k, j - k, m);
    }
  }

  /**
    Between two runs of a process every other one that can run does so exactly once: among the ticks
    k, ..., k + m - 1, m being the number of processes that can run, there is exactly one after which
    the b-th of them is current.
    */
  lemma {:induction false} EveryoneOncePerRound(s: Sched, frames: seq<Frame>, k: nat, b: nat) returns (i: nat)
    requires WellFormed(s) && !s.threads[Current(s)].status.DEAD?
    requires b < |LiveFrom(s, 0)| && k + |LiveFrom(s, 0)| <= |frames| + 1
    ensures k <= i < k + |LiveFrom(s, 0)| && Ticks(s, frames[..i]).pos == LiveFrom(s, 0)[b]
    ensures forall j | k <= j < k + |LiveFrom(s, 0)| && Ticks(s, frames[..j]).pos == LiveFrom(s, 0)[b] :: j == i
  {
    var l := LiveFrom(s, 0);
    var a := CurrentIsLive(s);
    i := EveryoneOnce(a, k, b, |l|);
    TurnIsPlace(s, frames[..i], a, b);
    forall j | k <= j < k + |l| && Ticks(s, frames[..j]).pos == l[b] ensures j == i {
      TurnIsPlace(s, frames[..j], a, b);
    }
  }

  lemma {:induction false} TurnIsPlace(s: Sched, frames: seq<Frame>, a: nat, b: nat)
    requires WellFormed(s) && !s.threads[Current(s)].status.DEAD?
    requires a < |LiveFrom(s, 0)| && LiveFrom(s, 0)[a] == s.pos && b < |LiveFrom(s, 0)|
    ensures Ticks(s, frames).pos == LiveFrom(s, 0)[b] <==> Turn(a, |frames|, |LiveFrom(s, 0)|) == b
  {
    RoundRobin(s, frames, a);
    LiveFromIs(s, 0);
  }
}

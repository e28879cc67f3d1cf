/**
  The scheduler of kernel/src/arch/x86_64/sched.c over its linked process and thread lists.
  */
module Scheduler {
  import opened Words
  import opened SchedModel

  /** sched_thread */
  class ThreadNode {
    var tid: U64
    var status: Status
    var context: Frame
    var next: ThreadNode?

    /** Fresh memory: the context holds whatever was there. */
    constructor (memory: Frame)
      ensures context == memory && next == null
    {
      tid, status, context, next := 0, READY, memory, null;
    }

    /** The fields `sched_new_thread` sets. */
    method Fill(tid: U64, stack: U64, entry: U64)
      requires next == null
      modifies this`tid, this`status, this`context, this`next
      ensures next == null
      ensures Thread(this.tid, status, context) == Thread(tid, READY, InitialContext(old(context), stack, entry))
    {
      this.tid := tid;
      status := READY;
      next := null;
      context := context.(ss := 0x10, rsp := stack, rflags := 0x202, cs := 0x08, rip := entry, rbp := 0);
    }
  }

  /** sched_process */
  class ProcessNode {
    var pid: U64
    var threads: ThreadNode?
    var next: ProcessNode?

    constructor (pid: U64)
      ensures this.pid == pid && threads == null && next == null
    {
      this.pid, threads, next := pid, null, null;
    }
  }

  ghost predicate NoThreadTwice(lists: seq<seq<nat>>) {
    forall p, i, q, j | 0 <= p < |lists| && 0 <= i < |lists[p]| && 0 <= q < |lists| && 0 <= j < |lists[q]|
                        && lists[p][i] == lists[q][j] :: p == q && i == j
  }

  /** The node for place j of a list, null past its end. */
  ghost function ThreadAt(nodes: seq<ThreadNode>, list: seq<nat>, j: nat): ThreadNode? {
    if j < |list| && list[j] < |nodes| then nodes[list[j]] else null
  }

  ghost function ProcessAt(nodes: seq<ProcessNode>, chain: seq<nat>, c: nat): ProcessNode? {
    if c < |chain| && chain[c] < |nodes| then nodes[chain[c]] else null
  }

  ghost predicate ThreadLink(nodes: seq<ThreadNode>, list: seq<nat>, j: nat)
    reads nodes`next
  {
    j < |list| && list[j] < |nodes| && nodes[list[j]].next == ThreadAt(nodes, list, j + 1)
  }

  ghost predicate ProcessLink(nodes: seq<ProcessNode>, chain: seq<nat>, c: nat)
    reads nodes`next
  {
    c < |chain| && chain[c] < |nodes| && nodes[chain[c]].next == ProcessAt(nodes, chain, c + 1)
  }

  ghost predicate FirstLink(procs: seq<ProcessNode>, nodes: seq<ThreadNode>, lists: seq<seq<nat>>, p: nat)
    reads procs`threads
  {
    p < |lists| && p < |procs| && procs[p].threads == ThreadAt(nodes, lists[p], 0)
  }

  /** The thread lists: each thread node points to the next one of its process. */
  ghost predicate ThreadLinks(nodes: seq<ThreadNode>, lists: seq<seq<nat>>)
    reads nodes`next
  {
    && (forall t, u | 0 <= t < u < |nodes| :: nodes[t] != nodes[u])
    && (forall p, j | 0 <= p < |lists| && 0 <= j < |lists[p]| :: ThreadLink(nodes, lists[p], j))
  }

  /** The process chain, and the head of each process's thread list. */
  ghost predicate ProcessLinks(procs: seq<ProcessNode>, nodes: seq<ThreadNode>, lists: seq<seq<nat>>, chain: seq<nat>)
    reads procs`next, procs`threads
  {
    && |procs| == |lists| && (forall p, q | 0 <= p < q < |procs| :: procs[p] != procs[q])
    && (forall p | 0 <= p < |procs| :: FirstLink(procs, nodes, lists, p))
    && (forall c | 0 <= c < |chain| :: ProcessLink(procs, chain, c))
  }

  /** What the thread nodes hold. */
  ghost predicate ThreadData(nodes: seq<ThreadNode>, values: seq<Thread>)
    reads nodes
  {
    && |nodes| == |values|
    && forall t | 0 <= t < |nodes| :: Thread(nodes[t].tid, nodes[t].status, nodes[t].context) == values[t]
  }

  /** A further empty list disturbs no thread link. */
  lemma {:induction false} MoreLists(nodes: seq<ThreadNode>, lists: seq<seq<nat>>)
    requires ThreadLinks(nodes, lists) && NoThreadTwice(lists)
    ensures ThreadLinks(nodes, lists + [[]]) && NoThreadTwice(lists + [[]])
  {
    forall p, j | 0 <= p < |lists + [[]]| && 0 <= j < |(lists + [[]])[p]|
      ensures ThreadLink(nodes, (lists + [[]])[p], j)
    {
      assert p < |lists| && ThreadLink(nodes, lists[p], j);
    }
  }

  /** All links are in place except that list p ends in a node not yet counted. */
  ghost predicate Pending(
    procs: seq<ProcessNode>, nodes: seq<ThreadNode>, lists: seq<seq<nat>>, p: nat, thread: ThreadNode)
    reads procs`threads, nodes`next, thread`next
  {
    && p < |lists| == |procs| && thread !in nodes && thread.next == null
    && (forall t, u | 0 <= t < u < |nodes| :: nodes[t] != nodes[u])
    && (forall q, j | 0 <= q < |lists| && 0 <= j < |lists[q]| && (q != p || j != |lists[p]| - 1) ::
         ThreadLink(nodes, lists[q], j))
    && (forall q | 0 <= q < |procs| && (q != p || lists[p] != []) :: FirstLink(procs, nodes, lists, q))
    && (if lists[p] == [] then procs[p].threads == thread
        else lists[p][|lists[p]| - 1] < |nodes| && nodes[lists[p][|lists[p]| - 1]].next == thread)
  }

  lemma {:induction false} PendingThreads(
    procs: seq<ProcessNode>, nodes: seq<ThreadNode>, lists: seq<seq<nat>>, p: nat, thread: ThreadNode)
    requires Pending(procs, nodes, lists, p, thread)
    requires forall q, j | 0 <= q < |lists| && 0 <= j < |lists[q]| :: lists[q][j] < |nodes|
    ensures ThreadLinks(nodes + [thread], lists[p := lists[p] + [|nodes|]])
  {
    var nodes', lists' := nodes + [thread], lists[p := lists[p] + [|nodes|]];
    forall q, j | 0 <= q < |lists'| && 0 <= j < |lists'[q]| ensures ThreadLink(nodes', lists'[q], j) {
      if j < |lists[q]| && (q != p || j != |lists[p]| - 1) {
        assert ThreadLink(nodes, lists[q], j);
      }
    }
  }

  lemma {:induction false} PendingProcesses(
    procs: seq<ProcessNode>, nodes: seq<ThreadNode>, lists: seq<seq<nat>>, chain: seq<nat>, p: nat, thread: ThreadNode)
    requires Pending(procs, nodes, lists, p, thread)
    requires forall q, j | 0 <= q < |lists| && 0 <= j < |lists[q]| :: lists[q][j] < |nodes|
    requires forall q, r | 0 <= q < r < |procs| :: procs[q] != procs[r]
    requires forall c | 0 <= c < |chain| :: ProcessLink(procs, chain, c)
    ensures ProcessLinks(procs, nodes + [thread], lists[p := lists[p] + [|nodes|]], chain)
  {
    var nodes', lists' := nodes + [thread], lists[p := lists[p] + [|nodes|]];
    forall q | 0 <= q < |procs| ensures FirstLink(procs, nodes', lists', q) {
      if q != p || lists[p] != [] { assert FirstLink(procs, nodes, lists, q); }
    }
  }

  lemma {:induction false} NewThreadOnce(s: Sched, p: nat, thread: Thread)
    requires WellFormed(s) && NoThreadTwice(s.lists) && p < |s.lists|
    ensures NoThreadTwice(SchedModel.NewThread(s, p, thread).lists)
    ensures Current(SchedModel.NewThread(s, p, thread)) == Current(s)
  {
  }

  class Scheduler {
    var processes: ProcessNode?
    var currentProcess: ProcessNode?
    var currentThread: ThreadNode?
    var nextPid: U64
    var nextTid: U64
    ghost var procs: seq<ProcessNode>
    ghost var threads: seq<ThreadNode>
    ghost var model: Sched

    ghost predicate Linked()
      reads this, procs, threads
    {
      && WellFormed(model) && NoThreadTwice(model.lists)
      && ThreadLinks(threads, model.lists) && ProcessLinks(procs, threads, model.lists, model.chain)
      && ThreadData(threads, model.threads) && processes == ProcessAt(procs, model.chain, 0)
    }

    ghost predicate Valid()
      reads this, procs, threads
    {
      && Linked() && currentProcess == ProcessAt(procs, model.chain, model.pos)
      && currentThread == threads[Current(model)]
    }

    /**
      The first half of `sched_init`: the kernel process with the thread already running, whose
      status and frame are whatever its memory held.
      */
    constructor (memory: Frame, status: Status)
      ensures Valid() && |procs| == 1 && nextTid == 0
      ensures model == Sched([Thread(0xffff_ffff_ffff_ffff, status, memory)], [[0]], [0], 0, 0)
    {
      var thread := new ThreadNode(memory);
      var process := new ProcessNode(0xffff_ffff_ffff_ffff);
      thread.tid := 0xffff_ffff_ffff_ffff;
      thread.status := status;
      process.threads := thread;
      processes, currentProcess, currentThread := process, process, thread;
      nextPid, nextTid := 0, 0;
      procs, threads := [process], [thread];
      model := Sched([Thread(0xffff_ffff_ffff_ffff, status, memory)], [[0]], [0], 0, 0);
      new;
      assert ThreadLink(threads, model.lists[0], 0) && ProcessLink(procs, model.chain, 0);
      assert FirstLink(procs, threads, model.lists, 0);
    }

    /** The second half of `sched_init`: the idle process and its thread. */
    method StartIdle(memory: Frame, stack: U64, entry: U64)
      requires Valid()
      modifies this, currentProcess`next, threads`next
      ensures Valid()
      ensures model == SchedModel.NewThread(SchedModel.NewProcess(old(model)), |old(procs)|,
                                            Thread(old(nextTid), READY, InitialContext(memory, stack, entry)))
    {
      ghost var p := |procs|;
      var idle := NewProcess();
      var thread := NewThread(idle, p, memory, stack, entry);
    }

    /** The frame is saved in the preempted thread, which becomes READY. */
    method SaveContext(sf: Frame)
      requires Valid()
      modifies this`model, threads`context, threads`status
      ensures Valid() && model == Save(old(model), sf)
    {
      currentThread.context := sf;
      currentThread.status := READY;
      model := Save(model, sf);
    }

    /** The part of the inner loop of `schedule` that passes over DEAD threads. */
    method SkipDead(ghost c: nat) returns (ghost j: nat)
      requires Linked() && c < |model.chain| && currentProcess == ProcessAt(procs, model.chain, c)
      modifies this`currentThread
      ensures Linked() && j == FirstLive(model.threads, model.lists[model.chain[c]])
      ensures currentThread == ThreadAt(threads, model.lists[model.chain[c]], j)
    {
      ghost var list := model.lists[model.chain[c]];
      j := 0;
      assert FirstLink(procs, threads, model.lists, model.chain[c]);
      currentThread := currentProcess.threads;
      while currentThread != null
        invariant Linked() && j <= |list| && currentThread == ThreadAt(threads, list, j)
        invariant forall i | 0 <= i < j :: model.threads[list[i]].status.DEAD?
        decreases |list| - j
      {
        assert ThreadLink(threads, list, j);
        if currentThread.status == DEAD {
          currentThread := currentThread.next;
          j := j + 1;
          continue;
        }
        break;
      }
    }

    /** The inner loop of `schedule`: the first thread of the current process that is not DEAD runs. */
    method PickThread(ghost c: nat)
      requires Linked() && c < |model.chain| && currentProcess == ProcessAt(procs, model.chain, c)
      modifies this`currentThread, this`model, threads`status
      ensures if old(Live(model, c)) then Valid() && model == Switch(old(model), c) && currentThread.status == RUNNING
              else Linked() && model == old(model) && currentThread == null
    {
      ghost var j := SkipDead(c);
      if currentThread != null {
        RunThread(c, j);
      }
    }

    method RunThread(ghost c: nat, ghost j: nat)
      requires Linked() && c < |model.chain| && currentProcess == ProcessAt(procs, model.chain, c) && Live(model, c)
      requires j == FirstLive(model.threads, model.lists[model.chain[c]])
      requires currentThread == ThreadAt(threads, model.lists[model.chain[c]], j)
      modifies this`model, threads`status
      ensures Valid() && model == Switch(old(model), c) && currentThread.status == RUNNING
    {
      currentThread.status := RUNNING;
      ghost var t := model.lists[model.chain[c]][j];
      ghost var threads := model.threads[t := model.threads[t].(status := RUNNING)];
      assert Switch(model, c) == model.(threads := threads, pos := c, cur := j);
      model := model.(threads := model.threads[t := model.threads[t].(status := RUNNING)], pos := c, cur := j);
    }

    /** The step along the process chain, from its end back to the head. */
    method Advance(ghost c: nat)
      requires Linked() && c < |model.chain| && currentProcess == ProcessAt(procs, model.chain, c)
      modifies this`currentProcess
      ensures Linked() && currentProcess == ProcessAt(procs, model.chain, After(c, |model.chain|))
    {
      assert ProcessLink(procs, model.chain, c);
      if currentProcess.next != null {
        currentProcess := currentProcess.next;
      } else {
        currentProcess := processes;
      }
    }

    /** The body of the outer loop of `schedule`. */
    method TryNext(ghost c: nat) returns (found: bool)
      requires Linked() && c < |model.chain| && currentProcess == ProcessAt(procs, model.chain, c)
      modifies this`currentProcess, this`currentThread, this`model, threads`status
      ensures found == old(Live(model, After(c, |model.chain|)))
      ensures if found then Valid() && model == Switch(old(model), After(c, |old(model).chain|))
              else Linked() && model == old(model)
                   && currentProcess == ProcessAt(procs, model.chain, After(c, |model.chain|))
    {
      Advance(c);
      PickThread(After(c, |model.chain|));
      found := currentThread != null && currentThread.status == RUNNING;
    }

    /** The outer loop of `schedule`; it ends because the preempted thread was made READY. */
    method FindNext()
      requires Valid() && Live(model, model.pos)
      modifies this`currentProcess, this`currentThread, this`model, threads`status
      ensures Valid() && model == Switch(old(model), NextLive(old(model), old(model.pos)))
    {
      ghost var start := model;
      ghost var c: nat := model.pos;
      while true
        invariant Linked() && model == start && c < |start.chain| && currentProcess == ProcessAt(procs, start.chain, c)
        invariant NextLive(start, c) == NextLive(start, start.pos)
        decreases Ahead(c, start.pos, |start.chain|)
      {
        var found := TryNext(c);
        if found {
          break;
        }
        AheadShrinks(c, start.pos, |start.chain|);
        c := After(c, |start.chain|);
      }
    }

    /** `schedule`: saves the frame it is given and returns the one to resume. */
    method Schedule(sf: Frame) returns (out: Frame)
      requires Valid()
      modifies this`currentProcess, this`currentThread, this`model, threads`context, threads`status
      ensures Valid()
      ensures model == SchedModel.Schedule(old(model), sf).0 && out == SchedModel.Schedule(old(model), sf).1
    {
      SaveContext(sf);
      FindNext();
      out := currentThread.context;
    }

    /** `sched_new`: links a process without threads after the current one, dropping what followed. */
    method NewProcess() returns (process: ProcessNode)
      requires Valid()
      modifies this`nextPid, this`procs, this`model, currentProcess`next
      ensures Valid() && model == SchedModel.NewProcess(old(model))
      ensures model == old(model).(
        lists := old(model).lists + [[]],
        chain := old(model).chain[..old(model).pos + 1] + [|old(procs)|])
      ensures fresh(process) && procs == old(procs) + [process]
      ensures process.pid == old(nextPid) && nextPid == Add64(old(nextPid), 1)
    {
      process := LinkProcess();
      MoreLists(threads, model.lists);
      model := SchedModel.NewProcess(model);
    }

    method LinkProcess() returns (process: ProcessNode)
      requires Valid()
      modifies this`nextPid, this`procs, currentProcess`next
      ensures fresh(process) && procs == old(procs) + [process]
      ensures process.pid == old(nextPid) && nextPid == Add64(old(nextPid), 1)
      ensures ProcessLinks(procs, threads, model.lists + [[]], model.chain[..model.pos + 1] + [|model.lists|])
    {
      ghost var lists, chain := model.lists + [[]], model.chain[..model.pos + 1] + [|model.lists|];
      process := new ProcessNode(nextPid);
      nextPid := Add64(nextPid, 1);
      currentProcess.next := process;
      procs := procs + [process];
      forall c | 0 <= c < |chain| ensures ProcessLink(procs, chain, c) {
        if c < model.pos { assert old(ProcessLink(procs, model.chain, c)); }
      }
      forall p | 0 <= p < |procs| ensures FirstLink(procs, threads, lists, p) {
        if p < |model.lists| { assert old(FirstLink(procs, threads, model.lists, p)); }
      }
    }

    /** `sched_new_thread`: a READY thread at the end of a process's list. */
    method NewThread(process: ProcessNode, ghost p: nat, memory: Frame, stack: U64, entry: U64)
      returns (thread: ThreadNode)
      requires Valid() && p < |procs| && process == procs[p]
      modifies this`nextTid, this`threads, this`model, process`threads, threads`next
      ensures Valid() && fresh(thread) && threads == old(threads) + [thread]
      ensures model ==
        SchedModel.NewThread(old(model), p, Thread(old(nextTid), READY, InitialContext(memory, stack, entry)))
      ensures model == old(model).(
        threads := old(model).threads + [Thread(thread.tid, thread.status, thread.context)],
        lists := old(model).lists[p := old(model).lists[p] + [|old(threads)|]])
      ensures thread.tid == old(nextTid) && nextTid == Add64(old(nextTid), 1) && thread.status == READY
      ensures thread.context
        == memory.(rip := entry, rsp := stack, cs := 0x08, ss := 0x10, rflags := 0x202, rbp := 0)
    {
      ghost var value := Thread(nextTid, READY, InitialContext(memory, stack, entry));
      thread := MakeThread(process, p, memory, stack, entry);
      NewThreadOnce(model, p, value);
      threads := threads + [thread];
      model := SchedModel.NewThread(model, p, value);
    }

    method MakeThread(process: ProcessNode, ghost p: nat, memory: Frame, stack: U64, entry: U64)
      returns (thread: ThreadNode)
      requires Valid() && p < |procs| && process == procs[p]
      modifies this`nextTid, process`threads, threads`next
      ensures fresh(thread) && ThreadData(threads, model.threads) && nextTid == Add64(old(nextTid), 1)
      ensures Thread(thread.tid, thread.status, thread.context) ==
        Thread(old(nextTid), READY, InitialContext(memory, stack, entry))
      ensures var lists := model.lists[p := model.lists[p] + [|threads|]];
        ThreadLinks(threads + [thread], lists) && ProcessLinks(procs, threads + [thread], lists, model.chain)
    {
      thread := FillThread(process, p, memory, stack, entry);
      PendingThreads(procs, threads, model.lists, p, thread);
      PendingProcesses(procs, threads, model.lists, model.chain, p, thread);
    }

    method FillThread(process: ProcessNode, ghost p: nat, memory: Frame, stack: U64, entry: U64)
      returns (thread: ThreadNode)
      requires Valid() && p < |procs| && process == procs[p]
      modifies this`nextTid, process`threads, threads`next
      ensures fresh(thread) && Pending(procs, threads, model.lists, p, thread) && nextTid == Add64(old(nextTid), 1)
      ensures forall q, r | 0 <= q < r < |procs| :: procs[q] != procs[r]
      ensures forall c | 0 <= c < |model.chain| :: ProcessLink(procs, model.chain, c)
      ensures Thread(thread.tid, thread.status, thread.context) ==
        Thread(old(nextTid), READY, InitialContext(memory, stack, entry))
    {
      thread := new ThreadNode(memory);
      thread.Fill(nextTid, stack, entry);
      nextTid := Add64(nextTid, 1);
      ScanAndLink(process, p, thread);
    }

    /** The scan to the end of the list, and the link from there. */
    method ScanAndLink(process: ProcessNode, ghost p: nat, thread: ThreadNode)
      requires Valid() && p < |procs| && process == procs[p] && thread !in threads && thread.next == null
      modifies process`threads, threads`next
      ensures Pending(procs, threads, model.lists, p, thread)
      ensures forall q, r | 0 <= q < r < |procs| :: procs[q] != procs[r]
      ensures forall c | 0 <= c < |model.chain| :: ProcessLink(procs, model.chain, c)
    {
      ghost var list := model.lists[p];
      assert FirstLink(procs, threads, model.lists, p);
      if process.threads == null {
        process.threads := thread;
        assert list == [];
        forall q | 0 <= q < |procs| && q != p ensures FirstLink(procs, threads, model.lists, q) {
          assert old(FirstLink(procs, threads, model.lists, q));
        }
      } else {
        var scan := process.threads;
        ghost var j: nat := 0;
        assert ThreadLink(threads, list, 0);
        while scan.next != null
          invariant j < |list| && scan == ThreadAt(threads, list, j) && ThreadLink(threads, list, j)
          decreases |list| - j
        {
          scan := scan.next;
          j := j + 1;
          assert ThreadLink(threads, list, j);
        }
        scan.next := thread;
        forall q, i | 0 <= q < |model.lists| && 0 <= i < |model.lists[q]| && (q != p || i != |list| - 1)
          ensures ThreadLink(threads, model.lists[q], i)
        {
          assert old(ThreadLink(threads, model.lists[q], i));
        }
      }
    }
  }
}

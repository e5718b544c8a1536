/**
 The linked task list refines the transition system of module `Scheduler`: every
 event done by pointer operations leads to the state the step leads to, as long
 as the tasks it removes can be unlinked. Whether they can depends on the events
 alone: a task's `prev` is true until its predecessor is removed.
 */
module TaskSystem {
  import opened Basics
  import opened Scheduler
  import opened SchedulerLaws
  import opened TaskList

  /** The process whose tasks an event frees, if any. */
  ghost function Victim(s: State, e: Event): Option<nat>
    requires 0 <= s.current < |s.tasks|
  {
    var me := s.tasks[s.current];
    match e
    case Fault => if me.main && me.proc != 0 then Some(me.proc) else None
    case Exit => Some(me.proc)
    case Quit => Some(me.proc)
    case Kill(pid) => Some(pid)
    case _ => None
  }

  /** The tasks an event removes can be unlinked, given which have their true
      `prev`: all of these have it, and no two that go together are neighbours. */
  ghost predicate Serves(s: State, trust: seq<bool>, e: Event)
    requires 0 <= s.current < |s.tasks| && |trust| == |s.tasks|
  {
    match Victim(s, e)
    case Some(pid) =>
      forall k :: 1 <= k < |s.tasks| && s.tasks[k].proc == pid ==> trust[k] && s.tasks[k - 1].proc != pid
    case None => e.Fault? && !s.tasks[s.current].main ==> trust[s.current]
  }

  /** Which tasks have their true `prev` after an event. */
  ghost function TrustAfter(s: State, trust: seq<bool>, e: Event): seq<bool>
    requires 0 <= s.current < |s.tasks| && |trust| == |s.tasks|
  {
    match Victim(s, e)
    case Some(pid) => KeptTrust(s.tasks, trust, pid, 0)
    case None =>
      if e.HostedLoad? || e.NewThread? || (e.PlainLoad? && HasSlot(s.procs)) then trust + [true]
      else if e.Fault? && !s.tasks[s.current].main then Parted(trust, s.current)
      else trust
  }

  /** One task leaves, and the one behind it keeps a `prev` that is not true. */
  ghost function Parted(trust: seq<bool>, c: nat): seq<bool>
    requires c < |trust|
  {
    trust[..c] + if c + 1 < |trust| then [false] + trust[c + 2..] else []
  }

  /** Every event of the run is enabled and can unlink what it removes. */
  ghost predicate CleanRun(s: State, trust: seq<bool>, events: seq<Event>)
    requires Inv(s) && |trust| == |s.tasks|
    decreases |events|
  {
    events == [] ||
    (&& Enabled(s, events[0]) && Serves(s, trust, events[0])
     && (StepKeeps(s, events[0]); TrustCounts(s, trust, events[0]);
         CleanRun(Step(s, events[0]).value, TrustAfter(s, trust, events[0]), events[1..])))
  }

  ghost predicate CleanFromBoot(events: seq<Event>) {
    BootInv();
    CleanRun(BOOT, [true], events)
  }

  lemma TrustCounts(s: State, trust: seq<bool>, e: Event)
    requires Inv(s) && Enabled(s, e) && |trust| == |s.tasks|
    ensures Step(s, e).Some? && |TrustAfter(s, trust, e)| == |Step(s, e).value.tasks|
  {
    hide ListInv, Awake, RemoveAll;
    StepKeeps(s, e);
    match Victim(s, e) {
      case Some(pid) =>
        RemoveAllIsOthers(s.tasks, s.current, pid, 0);
        assert s.tasks[0..] == s.tasks;
        KeptCount(s.tasks, trust, pid, 0);
      case None =>
    }
  }

  lemma {:induction false} KeptCount(tasks: seq<Task>, trust: seq<bool>, pid: nat, i: nat)
    requires |trust| == |tasks| && i <= |tasks|
    ensures |KeptTrust(tasks, trust, pid, i)| == |Others(tasks[i..], pid)|
    decreases |tasks| - i
  {
    if i < |tasks| {
      assert tasks[i..][1..] == tasks[i + 1..];
      KeptCount(tasks, trust, pid, i + 1);
    }
  }

  class Kernel {
    const list: List
    var procs: map<nat, Process>

    /** The list and the process table are those of a state. */
    ghost predicate Shows(s: State)
      reads this, list, list.nodes
    {
      procs == s.procs && ShowsTasks(s.tasks, s.current)
    }

    ghost predicate ShowsTasks(tasks: seq<Task>, c: int)
      reads list, list.nodes
    {
      && list.Linked(list.nodes) && Settled(list.nodes, Prevs(list.nodes))
      && TasksOf(list.nodes) == tasks && 0 <= c < |list.nodes| && list.current == list.nodes[c]
    }

    /** Which tasks have their true `prev`. */
    ghost function Trusted(): seq<bool>
      reads list, list.nodes
    {
      Trust(list.nodes, Prevs(list.nodes))
    }

    ghost function Objects(): set<object>
      reads list, list.nodes
    {
      Footprint(list.nodes, Prevs(list.nodes))
    }

    /** The machine with its first process. */
    constructor ()
      ensures fresh(list) && fresh(Objects())
      ensures Shows(BOOT) && Trusted() == [true]
    {
      list := new List();
      procs := map[0 := Process(None, false)];
      new;
      var node := new Node(Task(0, true));
      list.Append(node);
      assert TasksOf(list.nodes) == [Task(0, true)];
    }

    /** A new task at the tail becomes current. */
    method AddTask(task: Task, ghost tasks: seq<Task>, ghost c: int)
      requires ShowsTasks(tasks, c)
      modifies list, list.nodes
      ensures ShowsTasks(tasks + [task], |tasks|) && Trusted() == old(Trusted()) + [true]
      ensures forall o :: o in Objects() ==> o in old(Objects()) || fresh(o)
    {
      hide Settled, Trust, Footprint;
      ghost var all, prevs := list.nodes, Prevs(list.nodes);
      var node := new Node(task);
      NoStray(all, prevs, node);
      list.Append(node);
      list.current := node;
      assert Prevs(all + [node]) == prevs + [all[|all| - 1]];
      AppendSettled(all, prevs, node);
      assert TasksOf(list.nodes) == tasks + [task];
    }

    /** The clock's choice: the task that follows the current one. */
    method Schedule(ghost tasks: seq<Task>, ghost c: int) returns (ghost now: int)
      requires ShowsTasks(tasks, c) && ListInv(tasks, procs)
      modifies list`current
      ensures TaskNext(State(tasks, c, procs)).Some?
      ensures Shows(TaskNext(State(tasks, c, procs)).value)
      ensures Follows(tasks, procs, c, now) && now < |list.nodes| && list.current == list.nodes[now]
    {
      hide ListInv, Settled, Follows, FirstAwake;
      TaskNextSafe(State(tasks, c, procs));
      PickFollows(State(tasks, c, procs));
      AllKnown(tasks, procs);
      assert forall i :: 0 <= i < |list.nodes| ==> tasks[i] == list.nodes[i].task;
      var n := list.PickNext(procs, c);
      list.current := n;
      now := TaskNext(State(tasks, c, procs)).value.current;
    }

    /** A faulting thread leaves the list. */
    method RemoveCurrent(ghost tasks: seq<Task>, ghost c: int)
      requires ShowsTasks(tasks, c) && c > 0 && Trusted()[c]
      modifies list, list.nodes
      ensures ShowsTasks(Scheduler.Remove(tasks, c, c).0, Scheduler.Remove(tasks, c, c).1)
      ensures Trusted() == Parted(old(Trusted()), c)
      ensures Objects() <= old(Objects())
    {
      assert list.nodes[c].prev == list.nodes[c - 1];
      hide Settled, Trust, Footprint, Parted;
      ghost var all, prevs := list.nodes, Prevs(list.nodes);
      list.Remove(list.current, c);
      assert Prevs(all) == prevs;
      UnlinkIsRemove(all, c, c);
      WithoutLinks(all, c);
      WithoutSettled(all, prevs, c);
    }

    /** All tasks of a process leave the list. */
    method RemoveProcess(pid: nat, ghost tasks: seq<Task>, ghost c: int)
      requires ShowsTasks(tasks, c) && tasks[0].proc != pid && Serve(list.nodes, Prevs(list.nodes), pid)
      modifies list, list.nodes, PrevObjects(list.nodes)
      ensures ShowsTasks(RemoveAll(tasks, c, pid, 0).0, RemoveAll(tasks, c, pid, 0).1)
      ensures Trusted() == KeptTrust(tasks, old(Trusted()), pid, 0)
      ensures Objects() <= old(Objects())
    {
      hide RemoveAll, Kept, KeptTrust, Serve, Settled, Trust, Footprint, KeptLinks;
      ghost var all, prevs := list.nodes, Prevs(list.nodes);
      assert all[0].task.proc != pid by {
        assert tasks[0] == all[0].task;
      }
      list.FreeAll(pid, c);
      KeptLinksAre(all, pid, 0);
      assert all[0..] == all;
      KeptPrint(all, prevs, pid);
    }

    /** Ends a process: its tasks go and its host wakes. */
    method EndProcess(pid: nat, ghost s: State)
      requires Shows(s) && ListInv(s.tasks, s.procs) && pid in s.procs && pid != 0
      requires Serve(list.nodes, Prevs(list.nodes), pid)
      modifies this`procs, list, list.nodes, PrevObjects(list.nodes)
      ensures Shows(Terminate(s, pid))
      ensures Trusted() == KeptTrust(s.tasks, old(Trusted()), pid, 0)
      ensures Objects() <= old(Objects())
    {
      hide RemoveAll, Ended, KeptTrust, Serve, Settled, Trust, Footprint, ListInv;
      HeadIsShell(s.tasks, s.procs);
      RemoveProcess(pid, s.tasks, s.current);
      procs := Ended(procs, pid);
    }

    /** The lowest unused process number, or 13. */
    method FindSlot() returns (slot: nat)
      ensures slot <= MAX_PROCESSES
      ensures slot < MAX_PROCESSES ==> FreeSlot(procs, slot)
      ensures slot == MAX_PROCESSES ==> !HasSlot(procs)
    {
      slot := 0;
      while slot < MAX_PROCESSES && slot in procs
        invariant slot <= MAX_PROCESSES && forall p: nat :: p < slot ==> p in procs
      {
        slot := slot + 1;
      }
    }

    /** Every event the transition system allows, done on the linked list, is its
        step, whenever the nodes it removes can be unlinked. */
    method Perform(e: Event, ghost s: State)
      requires Shows(s) && Inv(s) && Enabled(s, e) && Serves(s, Trusted(), e)
      modifies this`procs, list, list.nodes, PrevObjects(list.nodes)
      ensures Step(s, e).Some? && Shows(Step(s, e).value) && Inv(Step(s, e).value)
      ensures Trusted() == TrustAfter(s, old(Trusted()), e)
      ensures forall o :: o in Objects() ==> o in old(Objects()) || fresh(o)
    {
      hide RemoveAll, Ended, ListInv, TaskNext, Survivor, Awake, KeptTrust, Parted, Settled, Footprint;
      StepKeeps(s, e);
      InvList(s);
      HeadIsShell(s.tasks, s.procs);
      ServeOfTrust(list.nodes, Prevs(list.nodes), s, e);
      assert list.current.task == s.tasks[s.current];
      var me := list.current.task;
      match e {
        case PlainLoad =>
          PerformLoad(s);
        case HostedLoad =>
          PerformHostedLoad(s);
        case NewThread =>
          AddTask(Task(me.proc, false), s.tasks, s.current);
        case Fault =>
          if !me.main {
            ThreadLeaves(s);
            RemoveCurrent(s.tasks, s.current);
            ghost var (rest, c) := Scheduler.Remove(s.tasks, s.current, s.current);
            var _ := Schedule(rest, c);
          } else if me.proc == 0 {
            var _ := Schedule(s.tasks, s.current);
          } else {
            EndAndSchedule(me.proc, s);
          }
        case Exit =>
          EndAndSchedule(me.proc, s);
        case Kill(pid) =>
          EndProcess(pid, s);
        case Quit =>
          EndProcess(me.proc, s);
        case Tick =>
          var _ := Schedule(s.tasks, s.current);
      }
    }

    method EndAndSchedule(pid: nat, ghost s: State)
      requires Shows(s) && Inv(s) && pid == s.tasks[s.current].proc != 0
      requires Serve(list.nodes, Prevs(list.nodes), pid)
      modifies this`procs, list, list.nodes, PrevObjects(list.nodes)
      ensures pid in s.procs
      ensures var t := Resume(Terminate(s, pid)); t.Some? && Shows(t.value)
      ensures Trusted() == KeptTrust(s.tasks, old(Trusted()), pid, 0)
      ensures Objects() <= old(Objects())
    {
      hide RemoveAll, Ended, ListInv, Awake, KeptTrust, Serve, Settled, Trust, Footprint, Inv, TaskNext;
      InvList(s);
      TerminateKeeps(s, pid);
      EndProcess(pid, s);
      ghost var t := Terminate(s, pid);
      var _ := Schedule(t.tasks, t.current);
    }

    method PerformLoad(ghost s: State)
      requires Shows(s)
      modifies this`procs, list, list.nodes
      ensures Enabled(s, PlainLoad) && Step(s, PlainLoad).Some? && Shows(Step(s, PlainLoad).value)
      ensures Trusted() == TrustAfter(s, old(Trusted()), PlainLoad)
      ensures forall o :: o in Objects() ==> o in old(Objects()) || fresh(o)
    {
      hide Settled, Footprint;
      var slot := FindSlot();
      if slot == MAX_PROCESSES {
        return;
      }
      SlotUnique(procs, slot);
      AddTask(Task(slot, true), s.tasks, s.current);
      procs := procs[slot := Process(None, false)];
    }

    method PerformHostedLoad(ghost s: State)
      requires Shows(s) && Enabled(s, HostedLoad)
      modifies this`procs, list, list.nodes
      ensures Step(s, HostedLoad).Some? && Shows(Step(s, HostedLoad).value)
      ensures Trusted() == old(Trusted()) + [true]
      ensures forall o :: o in Objects() ==> o in old(Objects()) || fresh(o)
    {
      hide Settled, Footprint;
      assert list.current.task == s.tasks[s.current];
      var me := list.current.task.proc;
      var slot := FindSlot();
      SlotUnique(procs, slot);
      procs := procs[me := procs[me].(hosting := true)];
      AddTask(Task(slot, true), s.tasks, s.current);
      procs := procs[slot := Process(Some(me), false)];
    }
  }

  /** Boots and does a whole run of events on the linked list: it ends in a state
      the transition system reaches by the same events. */
  method RunFromBoot(events: seq<Event>) returns (k: Kernel, ghost t: State)
    requires CleanFromBoot(events)
    ensures Run(BOOT, events, t) && Inv(t) && k.Shows(t)
  {
    hide Inv, Enabled, Serves, Step, TrustAfter, Run, CleanRun;
    BootInv();
    k := new Kernel();
    t := BOOT;
    RunNothing(BOOT);
    assert events[..0] == [] && events[0..] == events;
    for i := 0 to |events|
      invariant fresh(k) && fresh(k.list) && fresh(k.Objects())
      invariant k.Shows(t) && Inv(t) && Run(BOOT, events[..i], t)
      invariant CleanRun(t, k.Trusted(), events[i..])
    {
      ghost var e, trust := events[i], k.Trusted();
      CleanStep(t, trust, events[i..]);
      assert events[i..][0] == e && events[i..][1..] == events[i + 1..];
      RunOneMore(BOOT, events[..i], t, e);
      assert events[..i] + [e] == events[..i + 1];
      Covers(k.list.nodes);
      k.Perform(events[i], t);
      t := Step(t, e).value;
    }
    assert events[..|events|] == events;
  }

  lemma Covers(all: seq<Node>)
    ensures PrevObjects(all) <= Footprint(all, Prevs(all))
    ensures forall i :: 0 <= i < |all| ==> all[i] in Footprint(all, Prevs(all))
  {
    assert forall i :: 0 <= i < |all| ==> Prevs(all)[i] == all[i].prev;
  }

  lemma CleanStep(s: State, trust: seq<bool>, events: seq<Event>)
    requires Inv(s) && |trust| == |s.tasks| && events != [] && CleanRun(s, trust, events)
    ensures 0 <= s.current < |s.tasks| && Enabled(s, events[0]) && Serves(s, trust, events[0])
    ensures Step(s, events[0]).Some? && Inv(Step(s, events[0]).value)
    ensures |TrustAfter(s, trust, events[0])| == |Step(s, events[0]).value.tasks|
    ensures CleanRun(Step(s, events[0]).value, TrustAfter(s, trust, events[0]), events[1..])
  {
    hide Step, TrustAfter, Serves, Enabled;
    StepKeeps(s, events[0]);
    TrustCounts(s, trust, events[0]);
  }

  lemma RunNothing(s: State)
    ensures Run(s, [], s)
  {
  }

  lemma {:induction false} RunOneMore(s: State, events: seq<Event>, t: State, e: Event)
    requires Run(s, events, t) && 0 <= t.current < |t.tasks| && Enabled(t, e) && Step(t, e).Some?
    ensures Run(s, events + [e], Step(t, e).value)
    decreases |events|
  {
    hide Enabled, Step;
    if events == [] {
      assert [e][1..] == [];
      assert Run(Step(t, e).value, [], Step(t, e).value);
    } else {
      RunOneMore(Step(s, events[0]).value, events[1..], t, e);
      assert (events + [e])[1..] == events[1..] + [e];
    }
  }

  /** What the events tell of trust is what the nodes need. */
  lemma ServeOfTrust(all: seq<Node>, prevs: seq<Node?>, s: State, e: Event)
    requires |prevs| == |all| && TasksOf(all) == s.tasks && 0 <= s.current < |all| && Serves(s, Trust(all, prevs), e)
    ensures Victim(s, e).Some? ==> Serve(all, prevs, Victim(s, e).value)
  {
    if Victim(s, e).Some? {
      var pid := Victim(s, e).value;
      forall k | 1 <= k < |all| && all[k].task.proc == pid
        ensures prevs[k] == all[k - 1] && all[k - 1].task.proc != pid
      {
        assert s.tasks[k].proc == pid && s.tasks[k - 1] == all[k - 1].task;
      }
    }
  }

  /** The nodes kept, their links and their trust. */
  lemma KeptPrint(all: seq<Node>, prevs: seq<Node?>, pid: nat)
    requires Settled(all, prevs) && Serve(all, prevs, pid) && all[0].task.proc != pid
    ensures var kept, links := Kept(all, pid), KeptLinks(all, prevs, pid, 0);
      && |links| == |kept| && Footprint(kept, links) <= Footprint(all, prevs)
      && Trust(kept, links) == KeptTrust(TasksOf(all), Trust(all, prevs), pid, 0)
  {
    TrustOfKept(all, prevs, pid, 0);
    KeptFootprint(all, prevs, pid, 0);
    assert all[0..] == all;
    var trust := KeptTrust(TasksOf(all), Trust(all, prevs), pid, 0);
    assert trust[0];
  }

  /** A process that starts a thread right after it is loaded: its two tasks are
      neighbours, and its end leaves the second one linked. */
  lemma ThreadAfterLoad(k: Kernel, s: State)
    requires s == State([Task(0, true), Task(1, true), Task(1, false)], 2,
                        map[0 := Process(None, false), 1 := Process(None, false)])
    requires k.Shows(s)
    ensures Run(BOOT, [PlainLoad, NewThread], s) && Enabled(s, Exit) && !Serves(s, k.Trusted(), Exit)
  {
    var loaded := State([Task(0, true), Task(1, true)], 1, s.procs);
    SlotUnique(BOOT.procs, 1);
    assert BOOT.tasks + [Task(1, true)] == loaded.tasks && BOOT.procs[1 := Process(None, false)] == loaded.procs;
    assert loaded.tasks + [Task(1, false)] == s.tasks;
    assert Step(BOOT, PlainLoad) == Some(loaded) && Step(loaded, NewThread) == Some(s);
    assert [PlainLoad, NewThread][1..] == [NewThread] && [NewThread][1..] == [];
    assert Run(s, [], s) && Run(loaded, [NewThread], s);
    assert forall i :: 0 <= i < 3 ==> k.list.nodes[i].task == s.tasks[i];
    assert k.list.nodes[2].task.proc == 1 && k.list.nodes[1].task.proc == 1;
  }

  /** Loading a process and its exit can be unlinked. */
  lemma LoadAndExitIsClean()
    ensures CleanFromBoot([PlainLoad, Exit])
  {
    hide ListInv, Awake;
    BootInv();
    var s := FirstLoad();
    hide Inv, Step, Serves, TrustAfter, Enabled;
    TrustCounts(BOOT, [true], PlainLoad);
    TrustCounts(s, [true, true], Exit);
    assert [PlainLoad, Exit][1..] == [Exit] && [Exit][1..] == [];
    assert CleanRun(s, [true, true], [Exit]);
  }

  lemma FirstLoad() returns (s: State)
    ensures Inv(BOOT) && Enabled(BOOT, PlainLoad) && Serves(BOOT, [true], PlainLoad)
    ensures Step(BOOT, PlainLoad) == Some(s) && TrustAfter(BOOT, [true], PlainLoad) == [true, true]
    ensures Inv(s) && |s.tasks| == 2 && Enabled(s, Exit) && Serves(s, [true, true], Exit)
  {
    BootInv();
    StepKeeps(BOOT, PlainLoad);
    SlotUnique(BOOT.procs, 1);
    s := Step(BOOT, PlainLoad).value;
    hide ListInv;
    assert s.tasks == [Task(0, true), Task(1, true)] && s.current == 1;
  }

  lemma SlotUnique(procs: map<nat, Process>, slot: nat)
    requires FreeSlot(procs, slot)
    ensures HasSlot(procs) && forall other :: FreeSlot(procs, other) ==> other == slot
  {
  }

  lemma AllKnown(tasks: seq<Task>, procs: map<nat, Process>)
    requires ListInv(tasks, procs)
    ensures forall i :: 0 <= i < |tasks| ==> tasks[i].proc in procs
  {
  }

  lemma HeadIsShell(tasks: seq<Task>, procs: map<nat, Process>)
    requires ListInv(tasks, procs)
    ensures |tasks| > 0 && tasks[0] == Task(0, true)
  {
  }

  /** A node just allocated is nobody's `prev`. */
  lemma NoStray(all: seq<Node>, prevs: seq<Node?>, node: Node)
    requires prevs == Prevs(all) && forall k :: 0 <= k < |all| ==> all[k].prev != node
    ensures node !in prevs
  {
    assert forall k :: 0 <= k < |all| ==> prevs[k] == all[k].prev;
  }

  lemma AppendSettled(all: seq<Node>, prevs: seq<Node?>, node: Node)
    requires Settled(all, prevs) && node !in all && node !in prevs
    ensures var more, links := all + [node], prevs + [all[|all| - 1]];
      && Settled(more, links) && Trust(more, links) == Trust(all, prevs) + [true]
      && forall o :: o in Footprint(more, links) ==> o in Footprint(all, prevs) || o == node
  {
    var more, links := all + [node], prevs + [all[|all| - 1]];
    forall o | o in Footprint(more, links)
      ensures o in Footprint(all, prevs) || o == node
    {
      var k :| 0 <= k < |more| && (o == more[k] || o == links[k]);
      if k == |all| && o == links[k] {
        assert o == all[k - 1];
      }
    }
  }

  ghost function LinksWithout(prevs: seq<Node?>, k: int): seq<Node?>
    requires 0 <= k < |prevs|
  {
    prevs[..k] + prevs[k + 1..]
  }

  lemma WithoutLinks(all: seq<Node>, k: int)
    requires 0 <= k < |all|
    ensures Prevs(Without(all, k)) == LinksWithout(Prevs(all), k)
  {
    RestNodes(all, k);
  }

  /** Without a node: every other `prev` is still true or names none, and the node
      behind the removed one is no longer trusted. */
  lemma WithoutSettled(all: seq<Node>, prevs: seq<Node?>, k: int)
    requires Settled(all, prevs) && 0 < k < |all|
    ensures var rest, links := Without(all, k), LinksWithout(prevs, k);
      && |links| == |rest| && Settled(rest, links) && Trust(rest, links) == Parted(Trust(all, prevs), k)
      && Footprint(rest, links) <= Footprint(all, prevs)
  {
    assert |prevs| == |all|;
    hide Settled, Trust, Footprint, Parted;
    RestNodes(all, k);
    StillSettled(all, prevs, k);
    WithoutFootprint(all, prevs, k);
    WithoutTrust(all, prevs, k);
  }

  lemma StillSettled(all: seq<Node>, prevs: seq<Node?>, k: int)
    requires Settled(all, prevs) && 0 < k < |all|
    ensures |LinksWithout(prevs, k)| == |Without(all, k)| && Settled(Without(all, k), LinksWithout(prevs, k))
  {
    RestNodes(all, k);
    var rest, links := Without(all, k), LinksWithout(prevs, k);
    forall i | 1 <= i < |rest|
      ensures links[i] == rest[i - 1] || links[i] !in rest
    {
      var j := if i < k then i else i + 1;
      assert links[i] == prevs[j];
      if prevs[j] == all[j - 1] {
        if i == k {
          assert all[k] !in rest;
        }
      } else {
        assert prevs[j] !in all;
        assert forall x :: x in rest ==> x in all;
      }
    }
  }

  lemma WithoutTrust(all: seq<Node>, prevs: seq<Node?>, k: int)
    requires Settled(all, prevs) && 0 < k < |all|
    ensures |LinksWithout(prevs, k)| == |Without(all, k)|
    ensures Trust(Without(all, k), LinksWithout(prevs, k)) == Parted(Trust(all, prevs), k)
  {
    RestNodes(all, k);
    var rest, links, trust := Without(all, k), LinksWithout(prevs, k), Parted(Trust(all, prevs), k);
    forall i | 0 <= i < |rest|
      ensures Trust(rest, links)[i] == trust[i]
    {
      var j := if i < k then i else i + 1;
      assert links[i] == prevs[j];
      assert j > 0 ==> prevs[j] == all[j - 1] || prevs[j] !in all;
      assert i == k ==> rest[i - 1] == all[k - 1] && !trust[i];
      assert i != k ==> trust[i] == Trust(all, prevs)[j];
    }
  }

  lemma WithoutFootprint(all: seq<Node>, prevs: seq<Node?>, k: int)
    requires |prevs| == |all| && 0 <= k < |all|
    ensures Footprint(Without(all, k), LinksWithout(prevs, k)) <= Footprint(all, prevs)
  {
    var rest, links := Without(all, k), LinksWithout(prevs, k);
    forall o | o in Footprint(rest, links)
      ensures o in Footprint(all, prevs)
    {
      var u :| 0 <= u < |rest| && (o == rest[u] || o == links[u]);
      var j := if u < k then u else u + 1;
      assert rest[u] == all[j] && links[u] == prevs[j];
    }
  }
}

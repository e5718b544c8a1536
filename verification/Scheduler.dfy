/**
 The round-robin scheduler with hosted processes, as a transition system.

 A process that hosts another sleeps until its guest ends. The clock handler
 walks the task list from the current task to its end and panics when every
 task it meets belongs to a sleeping process. The invariant shows that it
 never does: a sleeper's guest has its main task behind all of the sleeper's
 tasks, so the last task of the list is always awake.
 */
module Scheduler {
  import opened Basics

  const MAX_PROCESSES := 13

  datatype Task = Task(proc: nat, main: bool)

  /** `host` is the process this one is hosted by; `hosting` says it sleeps. */
  datatype Process = Process(host: Option<nat>, hosting: bool)

  datatype State = State(tasks: seq<Task>, current: int, procs: map<nat, Process>)

  // ------------------------------------------------------------ picking

  ghost predicate Awake(procs: map<nat, Process>, t: Task) {
    t.proc in procs && !procs[t.proc].hosting
  }

  /** First awake task at or behind position `i`, to the end of the list only. */
  ghost function ScanFrom(tasks: seq<Task>, procs: map<nat, Process>, i: nat): (r: Option<int>)
    requires i <= |tasks|
    ensures r.Some? ==> i <= r.value < |tasks| && Awake(procs, tasks[r.value])
    ensures r.Some? ==> forall j :: i <= j < r.value ==> !Awake(procs, tasks[j])
    ensures r.None? <==> forall j :: i <= j < |tasks| ==> !Awake(procs, tasks[j])
    decreases |tasks| - i
  {
    if i == |tasks| then None
    else if Awake(procs, tasks[i]) then Some(i)
    else ScanFrom(tasks, procs, i + 1)
  }

  /** The task after the current one, or the head behind the tail. */
  function NextIndex(n: nat, current: int): int {
    if current + 1 < n then current + 1 else 0
  }

  /** `None` is the panic "No more tasks". */
  ghost function TaskNext(s: State): Option<State>
    requires 0 <= s.current < |s.tasks|
  {
    match ScanFrom(s.tasks, s.procs, NextIndex(|s.tasks|, s.current))
    case None => None
    case Some(i) => Some(s.(current := i))
  }

  // ----------------------------------------------------------- removing

  /** One task leaves the list; if it was current its successor, or the new
      head, becomes current. */
  ghost function Remove(tasks: seq<Task>, current: int, i: int): (seq<Task>, int)
    requires 0 <= i < |tasks|
  {
    var rest := tasks[..i] + tasks[i + 1..];
    (rest, if i < current then current - 1 else if i == current then (if i < |rest| then i else 0) else current)
  }

  /** The list walk that frees every task of a process. */
  ghost function RemoveAll(tasks: seq<Task>, current: int, pid: nat, i: int): (seq<Task>, int)
    requires 0 <= i <= |tasks|
    decreases |tasks| - i
  {
    if i == |tasks| then (tasks, current)
    else if tasks[i].proc == pid then
      var (rest, c) := Remove(tasks, current, i); RemoveAll(rest, c, pid, i)
    else RemoveAll(tasks, current, pid, i + 1)
  }

  /** The process table after process `pid` ended: its host is awake. */
  function Ended(procs: map<nat, Process>, pid: nat): map<nat, Process>
    requires pid in procs
  {
    var woken := match procs[pid].host
      case Some(h) => if h in procs then procs[h := procs[h].(hosting := false)] else procs
      case None => procs;
    woken - {pid}
  }

  ghost function Terminate(s: State, pid: nat): State
    requires pid in s.procs
  {
    var (rest, c) := RemoveAll(s.tasks, s.current, pid, 0);
    State(rest, c, Ended(s.procs, pid))
  }

  // -------------------------------------------------------------- events

  datatype Event =
    | PlainLoad
    | HostedLoad
    | NewThread
    | Fault
    | Exit
    | Kill(pid: nat)
    | Quit
    | Tick

  ghost predicate FreeSlot(procs: map<nat, Process>, slot: nat) {
    slot < MAX_PROCESSES && slot !in procs && forall p: nat :: p < slot ==> p in procs
  }

  ghost predicate HasSlot(procs: map<nat, Process>) {
    exists slot :: FreeSlot(procs, slot)
  }

  /** Hosted loads succeed; the shell (process 0) never exits; a process is
      killed from outside only while it hosts nobody; the keyboard's quit ends
      the running process only when that leaves an awake task current. */
  ghost predicate Enabled(s: State, e: Event)
    requires 0 <= s.current < |s.tasks|
  {
    match e
    case HostedLoad => s.tasks[s.current].proc in s.procs && HasSlot(s.procs)
    case Exit => s.tasks[s.current].proc != 0 && s.tasks[s.current].proc in s.procs
    case Fault => s.tasks[s.current].proc in s.procs
    case Kill(pid) => pid in s.procs && pid != 0 && pid != s.tasks[s.current].proc && !s.procs[pid].hosting
    case Quit => s.tasks[s.current].proc != 0 && s.tasks[s.current].proc in s.procs && QuitLeavesAwake(s)
    case _ => true
  }

  ghost function Loaded(s: State, slot: nat, host: Option<nat>): State {
    State(s.tasks + [Task(slot, true)], |s.tasks|, s.procs[slot := Process(host, false)])
  }

  ghost function Step(s: State, e: Event): Option<State>
    requires 0 <= s.current < |s.tasks| && Enabled(s, e)
  {
    var me := s.tasks[s.current];
    match e
    case PlainLoad =>
      if HasSlot(s.procs) then var slot :| FreeSlot(s.procs, slot); Some(Loaded(s, slot, None)) else Some(s)
    case HostedLoad =>
      var slot :| FreeSlot(s.procs, slot);
      Some(Loaded(s.(procs := s.procs[me.proc := s.procs[me.proc].(hosting := true)]), slot, Some(me.proc)))
    case NewThread =>
      Some(State(s.tasks + [Task(me.proc, false)], |s.tasks|, s.procs))
    case Fault =>
      if !me.main then
        var (rest, c) := Remove(s.tasks, s.current, s.current);
        Resume(State(rest, c, s.procs))
      else if me.proc == 0 then TaskNext(s)
      else Resume(Terminate(s, me.proc))
    case Exit => Resume(Terminate(s, me.proc))
    case Kill(pid) => Some(Terminate(s, pid))
    case Quit => Some(Terminate(s, me.proc))
    case Tick => TaskNext(s)
  }

  /** Picking the next task after a removal; an empty list is fatal too. */
  ghost function Resume(s: State): Option<State> {
    if 0 <= s.current < |s.tasks| then TaskNext(s) else None
  }

  // ----------------------------------------------------------- invariant

  ghost predicate HasMain(tasks: seq<Task>, p: nat) {
    exists i :: 0 <= i < |tasks| && tasks[i] == Task(p, true)
  }

  ghost predicate IsGuest(procs: map<nat, Process>, g: nat, h: nat) {
    g in procs && procs[g].host == Some(h)
  }

  /** Every guest's main task lies behind all tasks of its sleeping host. */
  ghost predicate GuestsBehind(tasks: seq<Task>, procs: map<nat, Process>) {
    forall i, j :: 0 <= i < |tasks| && 0 <= j < |tasks| && tasks[j].main && IsGuest(procs, tasks[j].proc, tasks[i].proc)
      ==> i < j
  }

  /** A process sleeps exactly while it has a guest, and it has at most one. */
  ghost predicate HostsAndGuests(procs: map<nat, Process>) {
    && (forall g, h :: IsGuest(procs, g, h) ==> h in procs && procs[h].hosting && h != g)
    && (forall h :: h in procs && procs[h].hosting ==> exists g :: IsGuest(procs, g, h))
    && (forall g, k, h :: IsGuest(procs, g, h) && IsGuest(procs, k, h) ==> g == k)
  }

  /** All of the invariant that does not mention the current task. */
  ghost predicate ListInv(tasks: seq<Task>, procs: map<nat, Process>) {
    && 0 in procs
    && |tasks| > 0 && tasks[0] == Task(0, true)
    && (forall i :: 0 <= i < |tasks| ==> tasks[i].proc in procs)
    && (forall p :: p in procs ==> HasMain(tasks, p))
    && HostsAndGuests(procs)
    && GuestsBehind(tasks, procs)
  }

  ghost predicate Inv(s: State) {
    && 0 <= s.current < |s.tasks|
    && ListInv(s.tasks, s.procs)
    && Awake(s.procs, s.tasks[s.current])
  }

  const BOOT := State([Task(0, true)], 0, map[0 := Process(None, false)])

  lemma BootInv()
    ensures Inv(BOOT)
  {
    assert BOOT.tasks[0] == Task(0, true);
  }

  /** The last task of the list is awake. */
  lemma TailAwake(tasks: seq<Task>, procs: map<nat, Process>)
    requires ListInv(tasks, procs)
    ensures |tasks| > 0 && Awake(procs, tasks[|tasks| - 1])
  {
    if !Awake(procs, tasks[|tasks| - 1]) {
      var _ := BehindSleeper(tasks, procs, |tasks| - 1);
    }
  }

  /** Behind every task of a sleeping process there is another task. */
  lemma BehindSleeper(tasks: seq<Task>, procs: map<nat, Process>, i: int) returns (j: int)
    requires ListInv(tasks, procs) && 0 <= i < |tasks| && !Awake(procs, tasks[i])
    ensures i < j < |tasks| && tasks[j].main && IsGuest(procs, tasks[j].proc, tasks[i].proc)
  {
    var g :| IsGuest(procs, g, tasks[i].proc);
    assert HasMain(tasks, g);
    j :| 0 <= j < |tasks| && tasks[j] == Task(g, true);
  }

  /** Picking never panics and picks an awake task. */
  lemma TaskNextSafe(s: State)
    requires 0 <= s.current < |s.tasks| && ListInv(s.tasks, s.procs)
    ensures TaskNext(s).Some? && Inv(TaskNext(s).value)
  {
    TailAwake(s.tasks, s.procs);
  }

  // --------------------------------------------------- removal keeps order

  /** What removing some tasks of process `pid` leaves of a list. */
  ghost predicate Thinned(tasks: seq<Task>, rest: seq<Task>, procs: map<nat, Process>, pid: nat) {
    && (forall i :: 0 <= i < |rest| ==> rest[i] in tasks)
    && (forall p :: p != pid && HasMain(tasks, p) ==> HasMain(rest, p))
    && (|tasks| > 0 && tasks[0].proc != pid ==> |rest| > 0 && rest[0] == tasks[0])
    && (GuestsBehind(tasks, procs) ==> GuestsBehind(rest, procs))
  }

  lemma RemoveThins(tasks: seq<Task>, procs: map<nat, Process>, current: int, i: int)
    requires 0 <= i < |tasks|
    ensures Thinned(tasks, Remove(tasks, current, i).0, procs, tasks[i].proc)
    ensures !tasks[i].main ==> forall p :: HasMain(tasks, p) ==> HasMain(Remove(tasks, current, i).0, p)
    ensures 0 <= current < |tasks| && |tasks| > 1 ==> 0 <= Remove(tasks, current, i).1 < |tasks| - 1
  {
    var rest := Remove(tasks, current, i).0;
    assert forall k :: 0 <= k < |rest| ==> rest[k] == tasks[if k < i then k else k + 1];
    forall p | HasMain(tasks, p) && (p != tasks[i].proc || !tasks[i].main)
      ensures HasMain(rest, p)
    {
      var k :| 0 <= k < |tasks| && tasks[k] == Task(p, true);
      assert rest[if k < i then k else k - 1] == tasks[k];
    }
  }

  lemma ThinnedTrans(a: seq<Task>, b: seq<Task>, c: seq<Task>, procs: map<nat, Process>, pid: nat)
    requires Thinned(a, b, procs, pid) && Thinned(b, c, procs, pid)
    ensures Thinned(a, c, procs, pid)
  {
  }

  lemma ThinnedSelf(tasks: seq<Task>, procs: map<nat, Process>, pid: nat)
    ensures Thinned(tasks, tasks, procs, pid)
  {
  }

  /** The tasks of all processes but `pid`, in order. */
  ghost function Others(tasks: seq<Task>, pid: nat): seq<Task> {
    if tasks == [] then []
    else if tasks[0].proc == pid then Others(tasks[1..], pid)
    else [tasks[0]] + Others(tasks[1..], pid)
  }

  /** The walk leaves exactly the other processes' tasks, in order. */
  lemma {:induction false} RemoveAllIsOthers(tasks: seq<Task>, current: int, pid: nat, i: int)
    requires 0 <= i <= |tasks|
    ensures RemoveAll(tasks, current, pid, i).0 == tasks[..i] + Others(tasks[i..], pid)
    decreases |tasks| - i
  {
    if i < |tasks| {
      assert tasks[i..][1..] == tasks[i + 1..];
      if tasks[i].proc == pid {
        var (rest, c) := Remove(tasks, current, i);
        RemoveAllIsOthers(rest, c, pid, i);
        assert rest[..i] == tasks[..i] && rest[i..] == tasks[i + 1..];
      } else {
        RemoveAllIsOthers(tasks, current, pid, i + 1);
        assert tasks[..i + 1] == tasks[..i] + [tasks[i]];
      }
    }
  }

  /** The walk removes exactly the process's tasks and keeps the rest in order;
      a current task of another process stays current. */
  lemma {:induction false} RemoveAllThins(tasks: seq<Task>, procs: map<nat, Process>, current: int, pid: nat, i: int)
    requires 0 <= i <= |tasks| && forall k :: 0 <= k < i ==> tasks[k].proc != pid
    ensures var (rest, c) := RemoveAll(tasks, current, pid, i);
      && Thinned(tasks, rest, procs, pid)
      && (forall k :: 0 <= k < |rest| ==> rest[k].proc != pid)
      && (0 <= current < |tasks| && |rest| > 0 ==> 0 <= c < |rest|)
      && (0 <= current < |tasks| && tasks[current].proc != pid ==> 0 <= c < |rest| && rest[c] == tasks[current])
    decreases |tasks| - i
  {
    hide Thinned;
    ThinnedSelf(tasks, procs, pid);
    if i < |tasks| {
      if tasks[i].proc == pid {
        var (rest, c) := Remove(tasks, current, i);
        RemoveThins(tasks, procs, current, i);
        assert forall k :: 0 <= k < i ==> rest[k] == tasks[k];
        RemoveAllThins(rest, procs, c, pid, i);
        ThinnedTrans(tasks, rest, RemoveAll(rest, c, pid, i).0, procs, pid);
      } else {
        RemoveAllThins(tasks, procs, current, pid, i + 1);
      }
    }
  }

  lemma EndedKeeps(procs: map<nat, Process>, pid: nat)
    requires HostsAndGuests(procs) && pid in procs && !procs[pid].hosting
    ensures var after := Ended(procs, pid);
      && HostsAndGuests(after) && after.Keys == procs.Keys - {pid}
      && (forall g, h :: IsGuest(after, g, h) ==> IsGuest(procs, g, h))
      && (forall p :: p in after ==> p in procs && (after[p].hosting ==> procs[p].hosting))
  {
    HostsAfterEnd(procs, Ended(procs, pid), pid);
  }

  /** Ending a process that hosts nobody wakes its host and keeps the rest. */
  lemma TerminateKeeps(s: State, pid: nat)
    requires ListInv(s.tasks, s.procs) && 0 <= s.current < |s.tasks|
    requires pid in s.procs && pid != 0 && !s.procs[pid].hosting
    ensures var t := Terminate(s, pid);
      && ListInv(t.tasks, t.procs) && 0 <= t.current < |t.tasks|
      && (s.tasks[s.current].proc != pid ==> t.tasks[t.current] == s.tasks[s.current])
      && (forall p :: p in t.procs ==> p in s.procs && (t.procs[p].hosting ==> s.procs[p].hosting))
      && t.procs.Keys == s.procs.Keys - {pid}
  {
    hide Ended, RemoveAll, HostsAndGuests, IsGuest, HasMain;
    var t := Terminate(s, pid);
    RemoveAllThins(s.tasks, s.procs, s.current, pid, 0);
    EndedKeeps(s.procs, pid);
    forall i | 0 <= i < |t.tasks|
      ensures t.tasks[i].proc in t.procs
    {
      assert t.tasks[i] in s.tasks;
    }
  }

  lemma HostsAfterEnd(procs: map<nat, Process>, after: map<nat, Process>, pid: nat)
    requires HostsAndGuests(procs) && pid in procs && !procs[pid].hosting
    requires after.Keys == procs.Keys - {pid}
    requires forall g, h :: IsGuest(after, g, h) <==> IsGuest(procs, g, h) && g != pid
    requires forall p :: p in after ==> after[p].hosting == (procs[p].hosting && procs[pid].host != Some(p))
    ensures HostsAndGuests(after)
  {
    forall g, h | IsGuest(after, g, h)
      ensures h in after && after[h].hosting && h != g
    {
      assert IsGuest(procs, g, h);
      assert procs[pid].host == Some(h) <==> IsGuest(procs, pid, h);
    }
    forall h | h in after && after[h].hosting
      ensures exists g :: IsGuest(after, g, h)
    {
      var g :| IsGuest(procs, g, h);
      assert procs[pid].host == Some(h) <==> IsGuest(procs, pid, h);
      assert IsGuest(after, g, h);
    }
  }

  // ------------------------------------------------------------ main result

  lemma NewcomerKeeps(procs: map<nat, Process>, slot: nat)
    requires HostsAndGuests(procs) && slot !in procs
    ensures HostsAndGuests(procs[slot := Process(None, false)])
    ensures forall g, h :: IsGuest(procs[slot := Process(None, false)], g, h) <==> IsGuest(procs, g, h)
  {
    var after := procs[slot := Process(None, false)];
    forall g, h
      ensures IsGuest(after, g, h) <==> IsGuest(procs, g, h)
    {
    }
    forall h | h in after && after[h].hosting
      ensures exists g :: IsGuest(after, g, h)
    {
      var g :| IsGuest(procs, g, h);
      assert IsGuest(after, g, h);
    }
  }

  /** A task appended at the tail keeps the order if its process hosts nobody. */
  lemma AppendedOrder(tasks: seq<Task>, t: Task, procs: map<nat, Process>, after: map<nat, Process>)
    requires GuestsBehind(tasks, procs)
    requires forall g, h :: IsGuest(after, g, h) <==> IsGuest(procs, g, h)
    requires forall g :: !IsGuest(procs, g, t.proc)
    ensures GuestsBehind(tasks + [t], after)
  {
    hide IsGuest;
    var more := tasks + [t];
    forall i, j | 0 <= i < |more| && 0 <= j < |more| && more[j].main && IsGuest(after, more[j].proc, more[i].proc)
      ensures i < j
    {
      assert IsGuest(procs, more[j].proc, more[i].proc);
      if i < |tasks| && j < |tasks| {
        assert more[i] == tasks[i] && more[j] == tasks[j];
      }
    }
  }

  lemma LoadKeeps(s: State, slot: nat)
    requires Inv(s) && FreeSlot(s.procs, slot)
    ensures Inv(Loaded(s, slot, None))
  {
    hide HostsAndGuests, HasMain, IsGuest, FreeSlot, GuestsBehind;
    NoGuestYet(s, slot);
    NewcomerKeeps(s.procs, slot);
    var t := Loaded(s, slot, None);
    AppendedMains(s.tasks, Task(slot, true));
    AppendedOrder(s.tasks, Task(slot, true), s.procs, t.procs);
  }

  /** A process that does not exist hosts nobody and is nobody's guest. */
  lemma NoGuestYet(s: State, slot: nat)
    requires Inv(s) && FreeSlot(s.procs, slot)
    ensures slot !in s.procs && forall p :: !IsGuest(s.procs, slot, p) && !IsGuest(s.procs, p, slot)
  {
  }

  /** The process table with `me` put to sleep for a new guest. */
  ghost function Hosted(procs: map<nat, Process>, me: nat, slot: nat): map<nat, Process>
    requires me in procs
  {
    procs[me := procs[me].(hosting := true)][slot := Process(Some(me), false)]
  }

  lemma HostedKeeps(procs: map<nat, Process>, me: nat, slot: nat)
    requires HostsAndGuests(procs) && me in procs && !procs[me].hosting && slot !in procs
    ensures HostsAndGuests(Hosted(procs, me, slot))
    ensures forall g, h :: IsGuest(Hosted(procs, me, slot), g, h) <==> IsGuest(procs, g, h) || (g == slot && h == me)
  {
    var after := Hosted(procs, me, slot);
    forall g, h
      ensures IsGuest(after, g, h) <==> IsGuest(procs, g, h) || (g == slot && h == me)
    {
    }
    assert forall g :: !IsGuest(procs, g, me);
    assert IsGuest(after, slot, me);
    forall h | h in after && after[h].hosting && h != me
      ensures exists g :: IsGuest(after, g, h)
    {
      var g :| IsGuest(procs, g, h);
      assert IsGuest(after, g, h);
    }
  }

  lemma HostedLoadKeeps(s: State, slot: nat)
    requires Inv(s) && FreeSlot(s.procs, slot)
    ensures var me := s.tasks[s.current].proc;
      Inv(Loaded(s.(procs := s.procs[me := s.procs[me].(hosting := true)]), slot, Some(me)))
  {
    hide HostsAndGuests, HasMain, IsGuest;
    var me := s.tasks[s.current].proc;
    var t := Loaded(s.(procs := s.procs[me := s.procs[me].(hosting := true)]), slot, Some(me));
    AppendedMains(s.tasks, Task(slot, true));
    HostedKeeps(s.procs, me, slot);
    assert t.procs == Hosted(s.procs, me, slot);
    assert t.tasks[|s.tasks|] == Task(slot, true);
    assert forall i :: 0 <= i < |s.tasks| ==> s.tasks[i].proc != slot && t.tasks[i] == s.tasks[i];
  }

  lemma AppendedMains(tasks: seq<Task>, t: Task)
    ensures forall p :: HasMain(tasks, p) ==> HasMain(tasks + [t], p)
    ensures t.main ==> HasMain(tasks + [t], t.proc)
  {
    var more := tasks + [t];
    forall p | HasMain(tasks, p)
      ensures HasMain(more, p)
    {
      var i :| 0 <= i < |tasks| && tasks[i] == Task(p, true);
      assert more[i] == Task(p, true);
    }
    assert more[|tasks|] == t;
  }

  /** Every event from a good state leads, without panic, to a good state. */
  lemma StepKeeps(s: State, e: Event)
    requires Inv(s) && Enabled(s, e)
    ensures Step(s, e).Some? && Inv(Step(s, e).value)
  {
    hide ListInv, Awake, TaskNext, Terminate, Loaded, HasSlot, FreeSlot;
    InvList(s);
    match e {
      case PlainLoad =>
        PlainLoadStep(s);
      case HostedLoad =>
        HostedLoadStep(s);
      case NewThread =>
        NewThreadStep(s);
      case Fault =>
        FaultStep(s);
      case Exit =>
        TerminateStep(s);
      case Kill(pid) =>
        KillStep(s, pid);
      case Quit =>
        QuitRunningIff(s);
      case Tick =>
        TaskNextSafe(s);
    }
  }

  lemma InvList(s: State)
    requires Inv(s)
    ensures ListInv(s.tasks, s.procs) && s.tasks[s.current].proc in s.procs && !s.procs[s.tasks[s.current].proc].hosting
  {
  }

  lemma PlainLoadStep(s: State)
    requires Inv(s)
    ensures Step(s, PlainLoad).Some? && Inv(Step(s, PlainLoad).value)
  {
    hide Inv, Loaded, FreeSlot;
    forall slot | FreeSlot(s.procs, slot)
      ensures Inv(Loaded(s, slot, None))
    {
      LoadKeeps(s, slot);
    }
  }

  lemma HostedLoadStep(s: State)
    requires Inv(s) && Enabled(s, HostedLoad)
    ensures Step(s, HostedLoad).Some? && Inv(Step(s, HostedLoad).value)
  {
    var me := s.tasks[s.current].proc;
    hide Inv, Loaded, FreeSlot;
    forall slot | FreeSlot(s.procs, slot)
      ensures Inv(Loaded(s.(procs := s.procs[me := s.procs[me].(hosting := true)]), slot, Some(me)))
    {
      HostedLoadKeeps(s, slot);
    }
  }

  lemma NewThreadStep(s: State)
    requires Inv(s)
    ensures Step(s, NewThread).Some? && Inv(Step(s, NewThread).value)
  {
    hide HasMain, HostsAndGuests, GuestsBehind;
    AppendedMains(s.tasks, Task(s.tasks[s.current].proc, false));
    NewThreadOrder(s);
  }

  /** A thread that is not a main task can go. */
  lemma ThreadLeaves(s: State)
    requires Inv(s) && !s.tasks[s.current].main
    ensures var (rest, c) := Remove(s.tasks, s.current, s.current);
      s.current > 0 && 0 <= c < |rest| && ListInv(rest, s.procs)
  {
    hide HostsAndGuests, GuestsBehind;
    RemoveThins(s.tasks, s.procs, s.current, s.current);
    var (rest, c) := Remove(s.tasks, s.current, s.current);
    assert rest[0] == s.tasks[0];
    assert forall i :: 0 <= i < |rest| ==> rest[i] in s.tasks;
  }

  lemma FaultStep(s: State)
    requires Inv(s)
    ensures Step(s, Fault).Some? && Inv(Step(s, Fault).value)
  {
    hide ListInv, TaskNext, Terminate, Remove;
    InvList(s);
    var me := s.tasks[s.current];
    if !me.main {
      ThreadLeaves(s);
      var (rest, c) := Remove(s.tasks, s.current, s.current);
      TaskNextSafe(State(rest, c, s.procs));
    } else if me.proc == 0 {
      TaskNextSafe(s);
    } else {
      TerminateStep(s);
    }
  }

  /** Ending the running process and picking another. */
  lemma TerminateStep(s: State)
    requires Inv(s) && s.tasks[s.current].proc != 0
    ensures var t := Resume(Terminate(s, s.tasks[s.current].proc)); t.Some? && Inv(t.value)
  {
    hide ListInv, TaskNext, Terminate;
    InvList(s);
    TerminateKeeps(s, s.tasks[s.current].proc);
    TaskNextSafe(Terminate(s, s.tasks[s.current].proc));
  }

  lemma KillStep(s: State, pid: nat)
    requires Inv(s) && Enabled(s, Kill(pid))
    ensures Inv(Terminate(s, pid))
  {
    hide ListInv, Terminate;
    InvList(s);
    TerminateKeeps(s, pid);
    var t := Terminate(s, pid);
    var me := s.tasks[s.current].proc;
    assert me in t.procs;
  }

  /** A new thread of an awake process goes behind nobody's guest. */
  lemma NewThreadOrder(s: State)
    requires Inv(s)
    ensures GuestsBehind(s.tasks + [Task(s.tasks[s.current].proc, false)], s.procs)
  {
    var p := s.tasks[s.current].proc;
    assert forall g :: !IsGuest(s.procs, g, p);
    AppendedOrder(s.tasks, Task(p, false), s.procs, s.procs);
  }

  ghost predicate Run(s: State, events: seq<Event>, t: State)
    decreases |events|
  {
    if events == [] then s == t
    else
      && 0 <= s.current < |s.tasks| && Enabled(s, events[0])
      && Step(s, events[0]).Some? && Run(Step(s, events[0]).value, events[1..], t)
  }

  /** In every state reachable from boot: the tail is awake, each sleeper has
      exactly one live guest, and no event panics. */
  lemma {:induction false} EveryRunIsSafe(s: State, events: seq<Event>, t: State)
    requires Inv(s) && Run(s, events, t)
    ensures Inv(t) && Awake(t.procs, t.tasks[|t.tasks| - 1])
    ensures forall h :: h in t.procs && t.procs[h].hosting ==>
      exists g :: IsGuest(t.procs, g, h) && forall k :: IsGuest(t.procs, k, h) ==> k == g
    ensures forall e :: Enabled(t, e) ==> Step(t, e).Some?
    decreases |events|
  {
    if events == [] {
      TailAwake(t.tasks, t.procs);
      forall e | Enabled(t, e)
        ensures Step(t, e).Some?
      {
        StepKeeps(t, e);
      }
    } else {
      StepKeeps(s, events[0]);
      EveryRunIsSafe(Step(s, events[0]).value, events[1..], t);
    }
  }

  /** The same, said of runs that start at boot. */
  lemma SafeFromBoot(events: seq<Event>, t: State)
    requires Run(BOOT, events, t)
    ensures Inv(t) && TaskNext(t).Some? && forall e :: Enabled(t, e) ==> Step(t, e).Some?
  {
    BootInv();
    EveryRunIsSafe(BOOT, events, t);
    TaskNextSafe(t);
  }

  // ---------------------------------------------------- a failed hosted load

  /** A hosted load that fails has already put the caller to sleep. */
  ghost function FailedHostedLoad(s: State): State
    requires 0 <= s.current < |s.tasks| && s.tasks[s.current].proc in s.procs
  {
    var me := s.tasks[s.current].proc;
    s.(procs := s.procs[me := s.procs[me].(hosting := true)])
  }

  /** The next clock tick then panics exactly when no task from the next one to
      the end of the list belongs to another process that is awake. */
  lemma TickAfterFailedLoad(s: State)
    requires Inv(s)
    ensures TaskNext(FailedHostedLoad(s)).None? <==>
      forall j :: NextIndex(|s.tasks|, s.current) <= j < |s.tasks| ==>
        s.tasks[j].proc == s.tasks[s.current].proc || !Awake(s.procs, s.tasks[j])
  {
    hide HostsAndGuests, GuestsBehind, HasMain, IsGuest;
    var t, me := FailedHostedLoad(s), s.tasks[s.current].proc;
    assert forall j :: 0 <= j < |s.tasks| ==>
      (Awake(t.procs, s.tasks[j]) <==> s.tasks[j].proc != me && Awake(s.procs, s.tasks[j]));
  }

  /** So the shell alone, mistyping a hosted command, stops the machine. */
  lemma FailedLoadAtBootPanics()
    ensures TaskNext(FailedHostedLoad(BOOT)).None?
  {
    BootInv();
    TickAfterFailedLoad(BOOT);
  }

  // ------------------------------------------- quitting from the keyboard

  /** First task from position `i` on that is not of process `pid`, or the end. */
  ghost function FirstOther(tasks: seq<Task>, pid: nat, i: nat): (j: nat)
    requires i <= |tasks|
    ensures i <= j <= |tasks| && (forall k :: i <= k < j ==> tasks[k].proc == pid)
    ensures j < |tasks| ==> tasks[j].proc != pid
    decreases |tasks| - i
  {
    if i < |tasks| && tasks[i].proc == pid then FirstOther(tasks, pid, i + 1) else i
  }

  /** The task that is current once `pid` has gone: the first other one at or
      behind the current task, or else the first other one of the list. */
  ghost function Survivor(tasks: seq<Task>, pid: nat, current: nat): (j: nat)
    requires current < |tasks|
    ensures j <= |tasks| && (j < |tasks| ==> tasks[j].proc != pid)
  {
    var j := FirstOther(tasks, pid, current);
    if j < |tasks| then j else FirstOther(tasks, pid, 0)
  }

  lemma FirstOtherIs(tasks: seq<Task>, pid: nat, i: nat, j: nat)
    requires i <= j <= |tasks| && (forall k :: i <= k < j ==> tasks[k].proc == pid)
    requires j < |tasks| ==> tasks[j].proc != pid
    ensures FirstOther(tasks, pid, i) == j
  {
  }

  /** Removing a task at `i`, between `p` and the first other one, moves that one up. */
  lemma FirstOtherShift(tasks: seq<Task>, rest: seq<Task>, pid: nat, i: nat, p: nat)
    requires i < |tasks| && rest == tasks[..i] + tasks[i + 1..] && i < p <= |tasks|
    ensures FirstOther(rest, pid, p - 1) == FirstOther(tasks, pid, p) - 1
  {
    hide FirstOther;
    var j := FirstOther(tasks, pid, p);
    assert forall k :: i <= k < |rest| ==> rest[k] == tasks[k + 1];
    FirstOtherIs(rest, pid, p - 1, j - 1);
  }

  /** The first other task of the list stays the first. */
  lemma FirstOtherFromHead(tasks: seq<Task>, rest: seq<Task>, pid: nat, i: nat)
    requires i < |tasks| && rest == tasks[..i] + tasks[i + 1..] && tasks[i].proc == pid
    requires forall k :: 0 <= k < i ==> tasks[k].proc != pid
    ensures FirstOther(rest, pid, 0) == if i > 0 then 0 else FirstOther(tasks, pid, 0) - 1
    ensures i > 0 ==> FirstOther(tasks, pid, 0) == 0
  {
    hide FirstOther;
    if i > 0 {
      FirstOtherIs(tasks, pid, 0, 0);
      FirstOtherIs(rest, pid, 0, 0);
    } else {
      FirstOtherShift(tasks, rest, pid, 0, 1);
      FirstOtherIs(tasks, pid, 0, FirstOther(tasks, pid, 1));
    }
  }

  /** Removing the first of the process's tasks keeps the survivor. */
  lemma SurvivorStep(tasks: seq<Task>, current: nat, pid: nat, i: nat)
    requires current < |tasks| && i < |tasks| && tasks[i].proc == pid
    requires (forall k :: 0 <= k < i ==> tasks[k].proc != pid) && Survivor(tasks, pid, current) < |tasks|
    ensures var (rest, c) := Remove(tasks, current, i);
      && 0 <= c < |rest| && Survivor(rest, pid, c) < |rest|
      && var j := Survivor(tasks, pid, current);
         j != i && Survivor(rest, pid, c) == if j < i then j else j - 1
  {
    hide FirstOther;
    var rest := tasks[..i] + tasks[i + 1..];
    FirstOtherFromHead(tasks, rest, pid, i);
    if current < i {
      FirstOtherIs(tasks, pid, current, current);
      FirstOtherIs(rest, pid, current, current);
    } else {
      // the tasks from the current one on, and failing those the head
      var from := if current == i then i + 1 else current;
      FirstOtherShift(tasks, rest, pid, i, from);
      FirstOtherIs(tasks, pid, current, FirstOther(tasks, pid, from));
    }
  }

  lemma {:induction false} OthersConcat(a: seq<Task>, b: seq<Task>, pid: nat)
    ensures Others(a + b, pid) == Others(a, pid) + Others(b, pid)
  {
    if a == [] {
      assert a + b == b;
    } else {
      assert (a + b)[1..] == a[1..] + b;
      OthersConcat(a[1..], b, pid);
    }
  }

  lemma {:induction false} OthersOfOthers(tasks: seq<Task>, pid: nat)
    requires forall k :: 0 <= k < |tasks| ==> tasks[k].proc != pid
    ensures Others(tasks, pid) == tasks
  {
    if tasks != [] {
      OthersOfOthers(tasks[1..], pid);
    }
  }

  /** Where the task at `j` stands among those of other processes. */
  ghost function Rank(tasks: seq<Task>, pid: nat, j: nat): nat
    requires j <= |tasks|
  {
    |Others(tasks[..j], pid)|
  }

  /** Removing a task of the process changes no rank. */
  lemma RankStep(tasks: seq<Task>, pid: nat, i: nat, j: nat)
    requires i < |tasks| && tasks[i].proc == pid && j < |tasks| && j != i
    ensures Rank(tasks[..i] + tasks[i + 1..], pid, if j < i then j else j - 1) == Rank(tasks, pid, j)
  {
    var rest := tasks[..i] + tasks[i + 1..];
    if j < i {
      assert rest[..j] == tasks[..j];
    } else {
      assert rest[..j - 1] == tasks[..i] + tasks[i + 1..j];
      assert tasks[..j] == tasks[..i] + ([tasks[i]] + tasks[i + 1..j]);
      OthersConcat(tasks[..i], tasks[i + 1..j], pid);
      OthersConcat(tasks[..i], [tasks[i]] + tasks[i + 1..j], pid);
      assert ([tasks[i]] + tasks[i + 1..j])[1..] == tasks[i + 1..j];
    }
  }

  /** The walk that frees a process's tasks ends with the survivor current. */
  lemma {:induction false} RemoveAllCurrent(tasks: seq<Task>, current: nat, pid: nat, i: nat)
    requires current < |tasks| && i <= |tasks| && forall k :: 0 <= k < i ==> tasks[k].proc != pid
    requires Survivor(tasks, pid, current) < |tasks|
    ensures var (rest, c) := RemoveAll(tasks, current, pid, i); var j := Survivor(tasks, pid, current);
      c == Rank(tasks, pid, j) < |rest| && rest[c] == tasks[j]
    decreases |tasks| - i
  {
    hide FirstOther, Rank;
    if i == |tasks| {
      FirstOtherIs(tasks, pid, current, current);
      RankOfAll(tasks, pid, current);
    } else if tasks[i].proc == pid {
      var (rest, c) := Remove(tasks, current, i);
      assert forall k :: 0 <= k < i ==> rest[k] == tasks[k];
      SurvivorStep(tasks, current, pid, i);
      RankStep(tasks, pid, i, Survivor(tasks, pid, current));
      RemoveAllCurrent(rest, c, pid, i);
    } else {
      RemoveAllCurrent(tasks, current, pid, i + 1);
    }
  }

  lemma RankOfAll(tasks: seq<Task>, pid: nat, j: nat)
    requires j <= |tasks| && forall k :: 0 <= k < |tasks| ==> tasks[k].proc != pid
    ensures Rank(tasks, pid, j) == j
  {
    OthersOfOthers(tasks[..j], pid);
  }

  /** A survivor is awake afterwards exactly if it was, or if it hosted `pid`. */
  lemma AwakeAfterEnd(procs: map<nat, Process>, pid: nat, t: Task)
    requires pid in procs && t.proc in procs && t.proc != pid
    ensures Awake(Ended(procs, pid), t) <==> !procs[t.proc].hosting || procs[pid].host == Some(t.proc)
  {
  }

  /** The survivor's process is awake or hosts the running process. */
  ghost predicate QuitLeavesAwake(s: State)
    requires 0 <= s.current < |s.tasks| && s.tasks[s.current].proc in s.procs
  {
    var pid := s.tasks[s.current].proc;
    var j := Survivor(s.tasks, pid, s.current);
    && j < |s.tasks| && s.tasks[j].proc in s.procs
    && (!s.procs[s.tasks[j].proc].hosting || s.procs[pid].host == Some(s.tasks[j].proc))
  }

  /** The keyboard's quit ends the process on screen and picks no new task. When
      that is the running process, the state stays good exactly if the first task
      of another process at or behind the current one (failing that, the first of
      the list) belongs to a process that is awake or hosts the one that quits. */
  lemma QuitRunningIff(s: State)
    requires Inv(s) && s.tasks[s.current].proc != 0
    ensures Inv(Terminate(s, s.tasks[s.current].proc)) <==> QuitLeavesAwake(s)
  {
    var pid := s.tasks[s.current].proc;
    var j := Survivor(s.tasks, pid, s.current);
    ShellSurvives(s, pid);
    RemoveAllCurrent(s.tasks, s.current, pid, 0);
    AwakeAfterEnd(s.procs, pid, s.tasks[j]);
    TerminateKeeps(s, pid);
  }

  lemma ShellSurvives(s: State, pid: nat)
    requires Inv(s) && pid != 0
    ensures Survivor(s.tasks, pid, s.current) < |s.tasks|
  {
    assert s.tasks[0].proc != pid;
  }

  /** The shell hosts process 1, which starts process 2; quitting process 2
      makes the sleeping shell current. */
  lemma QuitCanRunSleeper()
    ensures var s := State([Task(0, true), Task(1, true), Task(2, true)], 2,
                           map[0 := Process(None, true), 1 := Process(Some(0), false), 2 := Process(None, false)]);
      && Run(BOOT, [HostedLoad, PlainLoad], s) && Inv(s) && !Inv(Terminate(s, 2))
  {
    hide ListInv, Step, QuitLeavesAwake, Terminate;
    var procs := map[0 := Process(None, true), 1 := Process(Some(0), false), 2 := Process(None, false)];
    var s := State([Task(0, true), Task(1, true), Task(2, true)], 2, procs);
    var hosted := State([Task(0, true), Task(1, true)], 1, procs - {2});
    FirstLoads(hosted, s);
    assert [HostedLoad, PlainLoad][1..] == [PlainLoad] && [PlainLoad][1..] == [];
    assert Run(s, [], s) && Run(hosted, [PlainLoad], s);
    BootInv();
    EveryRunIsSafe(BOOT, [HostedLoad, PlainLoad], s);
    QuitRunningIff(s);
    SleeperSurvives(s);
  }

  /** Slots are handed out in order: the first two loads. */
  lemma FirstLoads(hosted: State, s: State)
    requires var procs := map[0 := Process(None, true), 1 := Process(Some(0), false), 2 := Process(None, false)];
      && hosted == State([Task(0, true), Task(1, true)], 1, procs - {2})
      && s == State([Task(0, true), Task(1, true), Task(2, true)], 2, procs)
    ensures Enabled(BOOT, HostedLoad) && Step(BOOT, HostedLoad) == Some(hosted)
    ensures Enabled(hosted, PlainLoad) && Step(hosted, PlainLoad) == Some(s)
  {
    assert FreeSlot(BOOT.procs, 1) && forall slot :: FreeSlot(BOOT.procs, slot) ==> slot == 1;
    assert FreeSlot(hosted.procs, 2) && forall slot :: FreeSlot(hosted.procs, slot) ==> slot == 2;
    assert hosted.procs == BOOT.procs[0 := Process(None, true)][1 := Process(Some(0), false)];
    assert hosted.tasks == BOOT.tasks + [Task(1, true)];
    assert s.procs == hosted.procs[2 := Process(None, false)];
    assert s.tasks == hosted.tasks + [Task(2, true)];
  }

  lemma SleeperSurvives(s: State)
    requires s.tasks == [Task(0, true), Task(1, true), Task(2, true)] && s.current == 2
    requires 0 in s.procs && 2 in s.procs && s.procs[0].hosting && s.procs[2].host == None
    ensures !QuitLeavesAwake(s)
  {
    FirstOtherIs(s.tasks, 2, 2, 3);
    FirstOtherIs(s.tasks, 2, 0, 0);
  }
}

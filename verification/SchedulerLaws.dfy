/**
 What the scheduler's events do, one by one, said of tasks and processes and not
 of the step function: which task a tick picks, that every task that is awake gets
 its turn, and exactly what each event adds, removes and changes.
 */
module SchedulerLaws {
  import opened Basics
  import opened Scheduler

  // ------------------------------------------------------------- picking

  /** From the task at `from`, the one at `to` is next: the first task behind it
      whose process is awake, or, behind the last task, the first of the list. */
  ghost predicate Follows(tasks: seq<Task>, procs: map<nat, Process>, from: int, to: int) {
    && 0 <= from < |tasks| && 0 <= to < |tasks|
    && tasks[to].proc in procs && !procs[tasks[to].proc].hosting
    && (from + 1 < |tasks| ==> from < to)
    && forall k :: (if from + 1 < |tasks| then from < k < to else 0 <= k < to) && tasks[k].proc in procs ==>
         procs[tasks[k].proc].hosting
  }

  /** A tick runs the next task and changes nothing else. */
  lemma TickEffect(s: State)
    requires Inv(s)
    ensures Enabled(s, Tick) && Step(s, Tick).Some?
    ensures var t := Step(s, Tick).value;
      t.tasks == s.tasks && t.procs == s.procs && Follows(s.tasks, s.procs, s.current, t.current)
  {
    hide ListInv, TaskNext, Follows;
    InvList(s);
    PickFollows(s);
  }

  lemma PickFollows(s: State)
    requires 0 <= s.current < |s.tasks| && ListInv(s.tasks, s.procs)
    ensures TaskNext(s).Some?
    ensures var t := TaskNext(s).value;
      t.tasks == s.tasks && t.procs == s.procs && Follows(s.tasks, s.procs, s.current, t.current)
  {
    TaskNextSafe(s);
    hide ListInv;
  }

  /** One tick. */
  ghost function Ticked(s: State): (t: State)
    requires Inv(s)
    ensures Inv(t) && t.tasks == s.tasks && t.procs == s.procs && Follows(s.tasks, s.procs, s.current, t.current)
    ensures Step(s, Tick) == Some(t)
  {
    StepKeeps(s, Tick);
    TickEffect(s);
    Step(s, Tick).value
  }

  /** The state after `n` ticks. */
  ghost function Ticks(s: State, n: nat): (t: State)
    requires Inv(s)
    ensures Inv(t) && t.tasks == s.tasks && t.procs == s.procs
    decreases n
  {
    if n == 0 then s else Ticks(Ticked(s), n - 1)
  }

  lemma {:induction false} TicksCompose(s: State, a: nat, b: nat)
    requires Inv(s)
    ensures Ticks(s, a + b) == Ticks(Ticks(s, a), b)
    decreases a
  {
    hide Inv, Ticked, Step, Follows;
    if a > 0 {
      TicksCompose(Ticked(s), a - 1, b);
    }
  }

  lemma OneTick(s: State)
    requires Inv(s)
    ensures Ticks(s, 1) == Ticked(s) && 0 <= s.current < |s.tasks|
  {
    hide ListInv, Ticked;
    assert Ticks(Ticked(s), 0) == Ticked(s);
  }

  /** A task that is awake behind the current one runs after at most as many ticks
      as it lies behind. */
  lemma {:induction false} TurnAhead(s: State, j: int) returns (n: nat)
    requires Inv(s) && s.current < j < |s.tasks| && Awake(s.procs, s.tasks[j])
    ensures 1 <= n <= j - s.current && Ticks(s, n).current == j
    decreases j - s.current
  {
    hide Inv, Ticked, Step, Ticks;
    OneTick(s);
    var t := Ticked(s);
    if t.current == j {
      n := 1;
    } else {
      var m := TurnAhead(t, j);
      n := 1 + m;
      TicksCompose(s, 1, m);
    }
  }

  /** Every task that is awake runs within as many ticks as there are tasks. */
  lemma EveryTaskGetsItsTurn(s: State, j: int) returns (n: nat)
    requires Inv(s) && 0 <= j < |s.tasks| && Awake(s.procs, s.tasks[j])
    ensures 1 <= n <= |s.tasks| && Ticks(s, n).current == j
  {
    hide Inv, Ticked, Step, Ticks, Follows, Awake;
    OneTick(s);
    if s.current < j {
      n := TurnAhead(s, j);
    } else {
      var a := ReachLast(s);
      var t := Ticks(s, a);
      OneTick(t);
      StartsOver(t, j);
      var u := Ticked(t);
      var b := ReachFromFirst(u, j);
      n := a + (1 + b);
      TicksCompose(t, 1, b);
      TicksCompose(s, a, 1 + b);
    }
  }

  /** Behind the last task a tick goes back to the first one that is awake. */
  lemma StartsOver(s: State, j: int)
    requires Inv(s) && s.current == |s.tasks| - 1 && 0 <= j < |s.tasks| && Awake(s.procs, s.tasks[j])
    ensures 0 <= Ticked(s).current <= j
  {
    hide Inv, Ticked, Step;
  }

  lemma ReachLast(s: State) returns (a: nat)
    requires Inv(s)
    ensures 0 <= s.current < |s.tasks| && a <= |s.tasks| - 1 - s.current && Ticks(s, a).current == |s.tasks| - 1
  {
    InvList(s);
    TailAwake(s.tasks, s.procs);
    hide ListInv, Ticked, Step;
    a := 0;
    if s.current < |s.tasks| - 1 {
      a := TurnAhead(s, |s.tasks| - 1);
    }
  }

  lemma ReachFromFirst(s: State, j: int) returns (b: nat)
    requires Inv(s) && s.current <= j < |s.tasks| && Awake(s.procs, s.tasks[j])
    ensures b <= j - s.current && Ticks(s, b).current == j
  {
    hide ListInv, Ticked, Step;
    b := 0;
    if s.current < j {
      b := TurnAhead(s, j);
    }
  }

  // ------------------------------------------------------------ removing

  /** `rest` is what is left of `tasks` without those of `pid`: `idx` lists, in
      order, exactly the positions that stay. */
  ghost predicate Sifted(tasks: seq<Task>, rest: seq<Task>, idx: seq<int>, pid: nat) {
    && |idx| == |rest|
    && (forall k :: 0 <= k < |idx| ==> 0 <= idx[k] < |tasks| && rest[k] == tasks[idx[k]])
    && (forall j, k :: 0 <= j < k < |idx| ==> idx[j] < idx[k])
    && (forall i :: 0 <= i < |tasks| ==> (i in idx <==> tasks[i].proc != pid))
  }

  lemma {:induction false} OthersSifted(tasks: seq<Task>, pid: nat) returns (idx: seq<int>)
    ensures Sifted(tasks, Others(tasks, pid), idx, pid)
  {
    hide Sifted;
    if tasks == [] {
      idx := [];
      NoneSifted(pid);
    } else {
      var n := |tasks| - 1;
      var front, last := tasks[..n], tasks[n];
      var less := OthersSifted(front, pid);
      OthersConcat(front, [last], pid);
      assert tasks == front + [last] && Others([last], pid) == if last.proc == pid then [] else [last];
      idx := if last.proc == pid then less else less + [n];
      hide Others;
      OneMoreSifted(front, Others(front, pid), less, pid, last);
      assert Others(front, pid) + [] == Others(front, pid);
    }
  }

  lemma NoneSifted(pid: nat)
    ensures Sifted([], [], [], pid)
  {
  }

  lemma OneMoreSifted(tasks: seq<Task>, rest: seq<Task>, idx: seq<int>, pid: nat, last: Task)
    requires Sifted(tasks, rest, idx, pid)
    ensures if last.proc == pid then Sifted(tasks + [last], rest, idx, pid)
            else Sifted(tasks + [last], rest + [last], idx + [|tasks|], pid)
  {
    var more := tasks + [last];
    assert forall i :: 0 <= i < |tasks| ==> more[i] == tasks[i];
    assert |tasks| !in idx;
  }

  /** The position of a kept task is its rank. */
  lemma {:induction false} SiftedRank(tasks: seq<Task>, idx: seq<int>, pid: nat, j: nat)
    requires Sifted(tasks, Others(tasks, pid), idx, pid) && j < |tasks| && tasks[j].proc != pid
    ensures Rank(tasks, pid, j) < |idx| && idx[Rank(tasks, pid, j)] == j
  {
    var k :| 0 <= k < |idx| && idx[k] == j;
    RankCounts(tasks, idx, pid, j, k);
  }

  /** As many kept tasks lie before position `j` as positions before it stay. */
  lemma {:induction false} RankCounts(tasks: seq<Task>, idx: seq<int>, pid: nat, j: nat, k: nat)
    requires Sifted(tasks, Others(tasks, pid), idx, pid) && j <= |tasks| && k <= |idx|
    requires (k < |idx| ==> j <= idx[k]) && (k > 0 ==> idx[k - 1] < j)
    ensures Rank(tasks, pid, j) == k
    decreases j
  {
    hide Sifted;
    if j == 0 {
      assert tasks[..0] == [];
      NoneBefore(tasks, idx, pid, k);
    } else {
      var front := tasks[..j - 1];
      assert tasks[..j] == front + [tasks[j - 1]];
      OthersConcat(front, [tasks[j - 1]], pid);
      assert Others([tasks[j - 1]], pid) == if tasks[j - 1].proc == pid then [] else [tasks[j - 1]];
      if tasks[j - 1].proc == pid {
        SkippedBefore(tasks, idx, pid, j, k);
        RankCounts(tasks, idx, pid, j - 1, k);
      } else {
        LastKept(tasks, idx, pid, j, k);
        RankCounts(tasks, idx, pid, j - 1, k - 1);
      }
    }
  }

  lemma NoneBefore(tasks: seq<Task>, idx: seq<int>, pid: nat, k: nat)
    requires Sifted(tasks, Others(tasks, pid), idx, pid) && k <= |idx| && (k > 0 ==> idx[k - 1] < 0)
    ensures k == 0
  {
  }

  /** If the position before `j` does not stay, the same positions lie before it. */
  lemma SkippedBefore(tasks: seq<Task>, idx: seq<int>, pid: nat, j: nat, k: nat)
    requires Sifted(tasks, Others(tasks, pid), idx, pid) && 0 < j <= |tasks| && k <= |idx|
    requires (k > 0 ==> idx[k - 1] < j) && tasks[j - 1].proc == pid
    ensures k > 0 ==> idx[k - 1] < j - 1
  {
    hide Others;
    assert k > 0 ==> idx[k - 1] in idx;
  }

  lemma LastKept(tasks: seq<Task>, idx: seq<int>, pid: nat, j: nat, k: nat)
    requires Sifted(tasks, Others(tasks, pid), idx, pid) && 0 < j <= |tasks| && k <= |idx|
    requires (k < |idx| ==> j <= idx[k]) && (k > 0 ==> idx[k - 1] < j) && tasks[j - 1].proc != pid
    ensures k > 0 && idx[k - 1] == j - 1 && (k > 1 ==> idx[k - 2] < j - 1)
  {
    hide Others;
    var i :| 0 <= i < |idx| && idx[i] == j - 1;
    assert i < k;
  }

  /** The processes once `pid` has ended: it is gone, its host is awake, and no
      other entry has changed. */
  ghost predicate WithoutProcess(procs: map<nat, Process>, after: map<nat, Process>, pid: nat) {
    && pid in procs && (forall p :: p in after <==> p in procs && p != pid)
    && forall p :: p in after ==>
         && after[p].host == procs[p].host
         && after[p].hosting == (procs[p].hosting && procs[pid].host != Some(p))
  }

  /** The first task not of `pid` at or behind `current`, or else of the list. */
  ghost predicate NextOther(tasks: seq<Task>, pid: nat, current: int, j: int) {
    && 0 <= j < |tasks| && 0 <= current && tasks[j].proc != pid
    && (|| (current <= j && forall k :: current <= k < j ==> tasks[k].proc == pid)
        || (&& (forall k :: current <= k < |tasks| ==> tasks[k].proc == pid)
            && (forall k :: 0 <= k < j ==> tasks[k].proc == pid)))
  }

  /** What ending a process leaves. */
  lemma EndEffect(s: State, pid: nat) returns (idx: seq<int>)
    requires Inv(s) && pid in s.procs && pid != 0
    ensures var t := Terminate(s, pid);
      && Sifted(s.tasks, t.tasks, idx, pid) && WithoutProcess(s.procs, t.procs, pid)
      && 0 <= t.current < |idx| && NextOther(s.tasks, pid, s.current, idx[t.current])
  {
    ShellSurvives(s, pid);
    RemoveAllIsOthers(s.tasks, s.current, pid, 0);
    RemoveAllCurrent(s.tasks, s.current, pid, 0);
    hide ListInv, Others, Rank, Survivor, Ended, RemoveAll, Sifted, NextOther, WithoutProcess;
    assert s.tasks[0..] == s.tasks && s.tasks[..0] + Others(s.tasks, pid) == Others(s.tasks, pid);
    idx := OthersSifted(s.tasks, pid);
    SurvivorFollows(s.tasks, pid, s.current);
    SiftedRank(s.tasks, idx, pid, Survivor(s.tasks, pid, s.current));
    EndedIs(s.procs, pid);
  }

  lemma SurvivorFollows(tasks: seq<Task>, pid: nat, current: nat)
    requires current < |tasks| && Survivor(tasks, pid, current) < |tasks|
    ensures NextOther(tasks, pid, current, Survivor(tasks, pid, current))
  {
    hide FirstOther;
  }

  lemma EndedIs(procs: map<nat, Process>, pid: nat)
    requires pid in procs
    ensures WithoutProcess(procs, Ended(procs, pid), pid)
  {
  }

  lemma EndCount(s: State, pid: nat, idx: seq<int>)
    requires pid in s.procs && Sifted(s.tasks, Terminate(s, pid).tasks, idx, pid)
    ensures |Terminate(s, pid).tasks| == |idx|
  {
  }

  // -------------------------------------------------------------- events

  /** Killing another process takes exactly its tasks and itself away and wakes its
      host; the task that was running goes on running. */
  lemma KillEffect(s: State, pid: nat) returns (idx: seq<int>)
    requires Inv(s) && pid in s.procs && pid != 0 && pid != s.tasks[s.current].proc && !s.procs[pid].hosting
    ensures Enabled(s, Kill(pid)) && Step(s, Kill(pid)).Some?
    ensures var t := Step(s, Kill(pid)).value;
      && Sifted(s.tasks, t.tasks, idx, pid) && WithoutProcess(s.procs, t.procs, pid)
      && 0 <= t.current < |idx| && idx[t.current] == s.current
  {
    hide ListInv, Terminate;
    idx := EndEffect(s, pid);
  }

  /** Quitting from the keyboard ends the running process and leaves the task that
      follows it current; it may be done when that one's process is awake, or asleep
      for the sake of the process that quits. */
  lemma QuitEffect(s: State, j: int) returns (idx: seq<int>)
    requires Inv(s) && s.tasks[s.current].proc != 0 && NextOther(s.tasks, s.tasks[s.current].proc, s.current, j)
    requires var me, p := s.tasks[s.current].proc, s.tasks[j].proc;
      me in s.procs && p in s.procs && (!s.procs[p].hosting || s.procs[me].host == Some(p))
    ensures Enabled(s, Quit) && Step(s, Quit).Some?
    ensures var me, t := s.tasks[s.current].proc, Step(s, Quit).value;
      && Sifted(s.tasks, t.tasks, idx, me) && WithoutProcess(s.procs, t.procs, me)
      && 0 <= t.current < |idx| && idx[t.current] == j
  {
    hide ListInv, Terminate;
    var me := s.tasks[s.current].proc;
    OneNextOther(s.tasks, me, s.current, j);
    idx := EndEffect(s, me);
    OneNextOther(s.tasks, me, s.current, idx[Terminate(s, me).current]);
  }

  lemma OneNextOther(tasks: seq<Task>, pid: nat, current: nat, j: int)
    requires current < |tasks| && NextOther(tasks, pid, current, j)
    ensures j == Survivor(tasks, pid, current)
  {
    hide FirstOther;
    if current <= j && forall k :: current <= k < j ==> tasks[k].proc == pid {
      FirstOtherIs(tasks, pid, current, j);
    } else {
      FirstOtherIs(tasks, pid, current, |tasks|);
      FirstOtherIs(tasks, pid, 0, j);
    }
  }

  /** An exit, and a fault of a main task other than the shell's, takes the running
      process and all its tasks away and wakes its host. The task that follows them
      becomes current, and from there the next one is picked. */
  lemma ExitEffect(s: State, e: Event) returns (idx: seq<int>, v: int)
    requires Inv(s) && s.tasks[s.current].proc != 0
    requires e == Exit || (e == Fault && s.tasks[s.current].main)
    ensures Enabled(s, e) && Step(s, e).Some?
    ensures var me, t := s.tasks[s.current].proc, Step(s, e).value;
      && Sifted(s.tasks, t.tasks, idx, me) && WithoutProcess(s.procs, t.procs, me)
      && 0 <= v < |idx| && NextOther(s.tasks, me, s.current, idx[v])
      && Follows(t.tasks, t.procs, v, t.current)
  {
    hide ListInv, Terminate, Sifted, WithoutProcess, NextOther, Follows, TaskNext;
    var me := s.tasks[s.current].proc;
    InvList(s);
    idx := EndEffect(s, me);
    TerminateKeeps(s, me);
    EndCount(s, me, idx);
    var u := Terminate(s, me);
    v := u.current;
    PickFollows(u);
  }

  /** A fault of another thread takes exactly that task away. The one behind it, or
      the first, becomes current, and from there the next one is picked. */
  lemma ThreadFaultEffect(s: State)
    requires Inv(s) && !s.tasks[s.current].main
    ensures Enabled(s, Fault) && Step(s, Fault).Some?
    ensures var c, t := s.current, Step(s, Fault).value;
      && t.tasks == s.tasks[..c] + s.tasks[c + 1..] && t.procs == s.procs
      && Follows(t.tasks, t.procs, if c < |t.tasks| then c else 0, t.current)
  {
    hide ListInv, Follows, TaskNext;
    ThreadLeaves(s);
    var (rest, c) := Remove(s.tasks, s.current, s.current);
    PickFollows(State(rest, c, s.procs));
  }

  /** A fault of the shell's main task is a tick. */
  lemma ShellFaultEffect(s: State)
    requires Inv(s) && s.tasks[s.current] == Task(0, true)
    ensures Enabled(s, Fault) && Step(s, Fault).Some?
    ensures var t := Step(s, Fault).value;
      t.tasks == s.tasks && t.procs == s.procs && Follows(s.tasks, s.procs, s.current, t.current)
  {
    hide ListInv, Follows, TaskNext;
    InvList(s);
    PickFollows(s);
  }

  /** The lowest process number in use by nobody. */
  ghost predicate LowestNumber(procs: map<nat, Process>, slot: nat) {
    slot !in procs && forall p: nat :: p < slot ==> p in procs
  }

  /** A load puts one new task at the tail, makes it current and adds one process,
      under the lowest free number; with thirteen processes it does nothing. */
  lemma PlainLoadEffect(s: State) returns (slot: nat)
    requires Inv(s)
    ensures Enabled(s, PlainLoad) && Step(s, PlainLoad).Some?
    ensures var t := Step(s, PlainLoad).value;
      if forall p: nat :: p < 13 ==> p in s.procs then t == s
      else
        && slot < 13 && LowestNumber(s.procs, slot)
        && t.tasks == s.tasks + [Task(slot, true)] && t.current == |s.tasks|
        && t.procs == s.procs[slot := Process(None, false)]
  {
    hide ListInv;
    slot := 0;
    while slot < 13 && slot in s.procs
      invariant slot <= 13 && forall p: nat :: p < slot ==> p in s.procs
    {
      slot := slot + 1;
    }
    if slot < 13 {
      assert FreeSlot(s.procs, slot);
      assert forall other :: FreeSlot(s.procs, other) ==> other == slot;
    }
  }

  /** A hosted load does the same, with the running process as the new one's host,
      and puts the running process to sleep. */
  lemma HostedLoadEffect(s: State) returns (slot: nat)
    requires Inv(s) && exists p: nat :: p < 13 && p !in s.procs
    ensures Enabled(s, HostedLoad) && Step(s, HostedLoad).Some?
    ensures var me, t := s.tasks[s.current].proc, Step(s, HostedLoad).value;
      && slot < 13 && LowestNumber(s.procs, slot) && me in s.procs && me != slot
      && t.tasks == s.tasks + [Task(slot, true)] && t.current == |s.tasks|
      && t.procs == s.procs[me := Process(s.procs[me].host, true)][slot := Process(Some(me), false)]
  {
    InvList(s);
    hide ListInv;
    slot := PlainLoadEffect(s);
    assert FreeSlot(s.procs, slot);
    assert forall other :: FreeSlot(s.procs, other) ==> other == slot;
  }

  /** A new thread is one task of the running process, at the tail and current. */
  lemma NewThreadEffect(s: State)
    requires Inv(s)
    ensures Enabled(s, NewThread) && Step(s, NewThread).Some?
    ensures var t := Step(s, NewThread).value;
      && t.tasks == s.tasks + [Task(s.tasks[s.current].proc, false)] && t.current == |s.tasks|
      && t.procs == s.procs
  {
  }
}

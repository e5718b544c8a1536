/**
 The task list as linked nodes.

 Appending and picking follow the `next` links; removal trusts the removed
 node's `prev` and does not repair its successor's.
 */
module TaskList {
  import opened Basics
  import opened Scheduler

  class Node {
    const task: Task
    var next: Node?
    var prev: Node?

    constructor (task: Task)
      ensures this.task == task && next == null && prev == null
    {
      this.task := task;
      next, prev := null, null;
    }
  }

  ghost function Without(s: seq<Node>, k: int): seq<Node>
    requires 0 <= k < |s|
  {
    s[..k] + s[k + 1..]
  }

  /** The tasks in list order. */
  ghost function TasksOf(s: seq<Node>): (ts: seq<Task>)
    ensures |ts| == |s|
  {
    seq(|s|, i requires 0 <= i < |s| => s[i].task)
  }

  /** Unlinking a node is the removal step of the transition system: the tasks
      left are its tasks, and its current index holds the node that is current. */
  lemma UnlinkIsRemove(s: seq<Node>, current: int, k: int)
    requires 0 <= k < |s| && 0 <= current < |s|
    ensures var (rest, c) := Scheduler.Remove(TasksOf(s), current, k);
      && TasksOf(Without(s, k)) == rest
      && (|s| > 1 ==> 0 <= c < |s| - 1 && Without(s, k)[c] == NextCurrent(s, current, k))
  {
    RestNodes(s, k);
    var a, b := TasksOf(Without(s, k)), Scheduler.Remove(TasksOf(s), current, k).0;
    assert |a| == |b| && forall i :: 0 <= i < |a| ==> a[i] == b[i];
  }

  /** The node that is current once node `k` has gone. */
  ghost function NextCurrent(s: seq<Node>, current: int, k: int): Node
    requires 0 <= k < |s| && 0 <= current < |s|
  {
    if current != k then s[current] else if k + 1 < |s| then s[k + 1] else s[0]
  }

  // ------------------------------------------- freeing all of a process's tasks

  /** The nodes of all processes but `pid`, in order. */
  ghost function Kept(s: seq<Node>, pid: nat): seq<Node> {
    if s == [] then []
    else if s[0].task.proc == pid then Kept(s[1..], pid)
    else [s[0]] + Kept(s[1..], pid)
  }

  lemma {:induction false} KeptMembers(s: seq<Node>, pid: nat)
    ensures forall u :: 0 <= u < |Kept(s, pid)| ==> Kept(s, pid)[u] in s && Kept(s, pid)[u].task.proc != pid
    ensures forall k :: 0 <= k < |s| && s[k].task.proc != pid ==> s[k] in Kept(s, pid)
    ensures (forall i, j :: 0 <= i < j < |s| ==> s[i] != s[j]) ==>
      forall i, j :: 0 <= i < j < |Kept(s, pid)| ==> Kept(s, pid)[i] != Kept(s, pid)[j]
  {
    if s != [] {
      KeptMembers(s[1..], pid);
      assert s == [s[0]] + s[1..];
    }
  }

  lemma {:induction false} KeptTasks(s: seq<Node>, pid: nat)
    ensures TasksOf(Kept(s, pid)) == Others(TasksOf(s), pid)
  {
    if s != [] {
      KeptTasks(s[1..], pid);
      assert TasksOf(s)[1..] == TasksOf(s[1..]);
      var kept := Kept(s[1..], pid);
      assert TasksOf([s[0]] + kept) == [s[0].task] + TasksOf(kept);
    }
  }

  /** A kept node stands where its rank says. */
  lemma {:induction false} KeptAt(s: seq<Node>, pid: nat, j: nat)
    requires j < |s| && s[j].task.proc != pid
    ensures |Kept(s[..j], pid)| < |Kept(s, pid)| && Kept(s, pid)[|Kept(s[..j], pid)|] == s[j]
  {
    if j > 0 {
      KeptAt(s[1..], pid, j - 1);
      assert s[..j][1..] == s[1..][..j - 1];
    }
  }

  /** The surviving node is at the transition system's current index. */
  lemma KeptCurrent(s: seq<Node>, pid: nat, current: nat)
    requires current < |s| && s[0].task.proc != pid
    ensures var (rest, c) := RemoveAll(TasksOf(s), current, pid, 0); var j := Survivor(TasksOf(s), pid, current);
      && TasksOf(Kept(s, pid)) == rest
      && j < |s| && 0 <= c < |Kept(s, pid)| && Kept(s, pid)[c] == s[j]
  {
    var tasks := TasksOf(s);
    var j := Survivor(tasks, pid, current);
    assert tasks[0].proc != pid;
    RemoveAllCurrent(tasks, current, pid, 0);
    RemoveAllIsOthers(tasks, current, pid, 0);
    assert tasks[0..] == tasks && tasks[..0] + Others(tasks, pid) == Others(tasks, pid);
    KeptTasks(s, pid);
    KeptTasks(s[..j], pid);
    assert TasksOf(s[..j]) == tasks[..j];
    KeptAt(s, pid, j);
  }

  lemma RestNodes(all: seq<Node>, k: int)
    requires 0 <= k < |all|
    ensures |Without(all, k)| == |all| - 1
    ensures forall i :: 0 <= i < k ==> Without(all, k)[i] == all[i]
    ensures forall i :: k <= i < |all| - 1 ==> Without(all, k)[i] == all[i + 1]
    ensures forall i :: k < i < |all| ==> Without(all, k)[i - 1] == all[i]
  {
  }

  /** From `from` on, `n` is the first node whose process does not sleep; null if
      all do. */
  ghost predicate FirstAwake(nodes: seq<Node>, procs: map<nat, Process>, from: int, n: Node?)
    requires 0 <= from && forall i :: 0 <= i < |nodes| ==> nodes[i].task.proc in procs
  {
    if n == null then forall j :: from <= j < |nodes| ==> procs[nodes[j].task.proc].hosting
    else exists i :: from <= i < |nodes| && n == nodes[i] && !procs[n.task.proc].hosting
           && forall j :: from <= j < i ==> procs[nodes[j].task.proc].hosting
  }

  class List {
    var head: Node?
    var tail: Node?
    var current: Node?
    ghost var nodes: seq<Node>

    constructor ()
      ensures Linked(nodes) && nodes == [] && current == null
    {
      head, tail, current := null, null, null;
      nodes := [];
    }

    /** Following `next` from the head visits exactly `s`, and the tail is its last. */
    ghost predicate Linked(s: seq<Node>)
      reads this, s
    {
      && head == (if s == [] then null else s[0])
      && tail == (if s == [] then null else s[|s| - 1])
      && (forall i {:trigger s[i].next} :: 0 <= i < |s| ==> s[i].next == if i + 1 < |s| then s[i + 1] else null)
      && (forall i, j :: 0 <= i < j < |s| ==> s[i] != s[j])
    }

    /** A new task goes to the tail. */
    method Append(node: Node)
      requires Linked(nodes) && node !in nodes && node.next == null
      modifies this, tail, node
      ensures Linked(nodes) && nodes == old(nodes) + [node]
      ensures node.prev == (if old(nodes) == [] then old(node.prev) else old(nodes)[|old(nodes)| - 1])
      ensures current == (if old(nodes) == [] then node else old(current))
      ensures forall i :: 0 <= i < |old(nodes)| ==> old(nodes)[i].prev == old(nodes[i].prev)
    {
      nodes := nodes + [node];
      if head == null {
        head := node;
        tail := node;
        current := node;
        return;
      }
      tail.next := node;
      node.prev := tail;
      tail := node;
    }

    method GetNext(ghost k: int) returns (n: Node?)
      requires Linked(nodes) && 0 <= k < |nodes| && current == nodes[k]
      ensures n == if k + 1 < |nodes| then nodes[k + 1] else nodes[0]
    {
      assert nodes[k].next == if k + 1 < |nodes| then nodes[k + 1] else null;
      if current.next == null {
        return head;
      }
      return current.next;
    }

    /** The clock's walk picks the task the transition system picks; null is the panic. */
    method PickNext(procs: map<nat, Process>, ghost k: int) returns (n: Node?)
      requires Linked(nodes) && 0 <= k < |nodes| && current == nodes[k]
      requires forall i :: 0 <= i < |nodes| ==> nodes[i].task.proc in procs
      ensures match ScanFrom(TasksOf(nodes), procs, NextIndex(|nodes|, k))
              case None => n == null
              case Some(i) => n == nodes[i]
      ensures FirstAwake(nodes, procs, if k + 1 < |nodes| then k + 1 else 0, n)
    {
      n := GetNext(k);
      ghost var i := NextIndex(|nodes|, k);
      while n != null
        invariant 0 <= i <= |nodes| && n == if i < |nodes| then nodes[i] else null
        invariant ScanFrom(TasksOf(nodes), procs, i) == ScanFrom(TasksOf(nodes), procs, NextIndex(|nodes|, k))
        invariant NextIndex(|nodes|, k) <= i
        invariant forall j :: NextIndex(|nodes|, k) <= j < i ==> procs[nodes[j].task.proc].hosting
        decreases |nodes| - i
      {
        assert TasksOf(nodes)[i] == n.task && nodes[i].next == if i + 1 < |nodes| then nodes[i + 1] else null;
        if !procs[n.task.proc].hosting {
          break;
        }
        n := n.next;
        i := i + 1;
      }
    }

    /** What unlinking does to the fields, whatever they hold. */
    method Unlink(node: Node)
      requires current != null
      modifies this`head, this`tail, this`current, (if node.prev == null then {} else {node.prev})`next
      ensures node.prev != null ==> node.prev.next == old(node.next)
      ensures head == if old(head) == node then old(node.next) else old(head)
      ensures tail == if old(tail) == node then node.prev else old(tail)
      ensures current == if old(current) != node then old(current)
                         else if old(node.next) == null then head else old(node.next)
    {
      if node.prev != null {
        node.prev.next := node.next;
      }
      if node == head {
        head := node.next;
      }
      if node == tail {
        tail := node.prev;
      }
      if node == current {
        current := if current.next == null then head else current.next;
      }
    }

    /** The removed node's `prev` is good enough to unlink it: it is the node
        before it, or, for the head, not a node that stays in the list. */
    ghost predicate PrevServes(k: int)
      reads this, nodes
      requires 0 <= k < |nodes|
    {
      if k > 0 then nodes[k].prev == nodes[k - 1]
      else nodes[0].prev == null || (|nodes| > 1 && nodes[0].prev !in nodes[1..])
    }

    /** Removal leaves exactly the other nodes linked, if and only if the
        removed node's `prev` serves. */
    method Remove(node: Node, ghost k: int)
      requires Linked(nodes) && 0 <= k < |nodes| && node == nodes[k]
      requires current != null
      modifies this, if node.prev == null then {} else {node.prev}
      ensures Linked(Without(old(nodes), k)) <==> old(PrevServes(k))
      ensures old(PrevServes(k)) ==> nodes == Without(old(nodes), k)
      ensures forall i :: 0 <= i < |old(nodes)| ==> old(nodes)[i].prev == old(nodes[i].prev)
      ensures old(PrevServes(k)) && old(current) == node ==>
        current == if k < |nodes| then nodes[k] else if nodes == [] then null else nodes[0]
      ensures old(current) != node ==> current == old(current)
      ensures k > 0 && !old(PrevServes(k)) ==> old(nodes)[k - 1].next == node
    {
      ghost var all, rest := nodes, Without(nodes, k);
      ghost var serves := PrevServes(k);
      ghost var p := node.prev;
      assert node.next == all[k].next == if k + 1 < |all| then all[k + 1] else null;
      Unlink(node);
      if serves {
        nodes := rest;
      }
      RestNodes(all, k);
      if k > 0 && !serves {
        assert rest[k - 1].next == node;
      } else if k == 0 && !serves && |all| > 1 {
        var j :| 1 <= j < |all| && p == all[j];
        assert rest[j - 1].next == rest[0];
      }
    }

    /** Unlinking two neighbours one after the other: the second one's `prev`
        still names the first, so it is not unlinked. */
    method RemoveNeighbours(ghost k: int, first: Node, second: Node)
      requires Linked(nodes) && 1 <= k && k + 1 < |nodes| && first == nodes[k] && second == nodes[k + 1]
      requires current != null && current != first && current != second
      requires forall i :: 1 <= i < |nodes| ==> nodes[i].prev == nodes[i - 1]
      modifies this, nodes
      ensures !Linked(Without(Without(old(nodes), k), k))
      ensures old(nodes)[k - 1].next == second
    {
      assert first.prev == nodes[k - 1];
      Remove(first, k);
      assert nodes[k] == second && nodes[k - 1] == old(nodes)[k - 1];
      assert second.prev == first && first != nodes[k - 1];
      Remove(second, k);
    }

    /** The walk that frees all tasks of a process. It leaves exactly the other
        nodes linked, as the transition system has it, if and only if each of the
        process's nodes has its true `prev` and no two of them are neighbours. */
    method FreeAll(pid: nat, ghost c: int)
      requires Linked(nodes) && Settled(nodes, Prevs(nodes))
      requires 0 <= c < |nodes| && current == nodes[c] && nodes[0].task.proc != pid
      modifies this, nodes, PrevObjects(nodes)
      ensures Linked(Kept(old(nodes), pid)) <==> old(Serve(nodes, Prevs(nodes), pid))
      ensures Prevs(old(nodes)) == old(Prevs(nodes))
      ensures old(Serve(nodes, Prevs(nodes), pid)) ==>
        var (rest, now) := RemoveAll(TasksOf(old(nodes)), c, pid, 0);
        && nodes == Kept(old(nodes), pid) && Settled(nodes, Prevs(nodes))
        && TasksOf(nodes) == rest && 0 <= now < |nodes| && current == nodes[now]
    {
      hide Kept, RemoveAll, Survivor, Linked, Serve, TasksOf;
      ghost var all, prevs := nodes, Prevs(nodes);
      WalkStart(pid);
      ghost var j := c;
      var node := head;
      ghost var i := 0;
      while node != null
        invariant 0 <= i <= |all| && node == (if i < |all| then all[i] else null) && nodes == all
        invariant 0 <= j < |all| && current == all[j] && Moved(all, pid, c, i, j)
        invariant Walked(all, prevs, pid, i)
        decreases |all| - i
      {
        j := FreeOne(node, all, prevs, pid, c, i, j);
        node := node.next;
        i := i + 1;
      }
      assert Prevs(all) == prevs;
      KeptCurrent(all, pid, c);
      MovedToSurvivor(all, pid, c, j);
      if Serve(all, prevs, pid) {
        nodes := Kept(all, pid);
        ServedLinks(all, prevs, pid);
        KeptSettled(all, pid);
      } else {
        UnservedBreaks(all, prevs, pid);
      }
    }

    lemma WalkStart(pid: nat)
      requires Linked(nodes) && nodes != []
      ensures Walked(nodes, Prevs(nodes), pid, 0)
    {
    }

    /** The fields once the walk has dealt with the first `i` nodes of `all`. */
    ghost predicate Walked(all: seq<Node>, prevs: seq<Node?>, pid: nat, i: int)
      requires |prevs| == |all| > 0
      reads this, all
    {
      && head == all[0] && tail == TailAfter(all, prevs, pid, i)
      && (forall k :: 0 <= k < |all| ==> all[k].prev == prevs[k])
      && (forall k {:trigger all[k].next} :: 0 <= k < |all| ==> all[k].next == NextAfter(all, prevs, pid, i, k))
    }

    /** One round of the walk. */
    method FreeOne(node: Node, ghost all: seq<Node>, ghost prevs: seq<Node?>, pid: nat, ghost c: int, ghost i: int,
                   ghost j: int)
      returns (ghost now: int)
      requires Settled(all, prevs) && Walked(all, prevs, pid, i) && all[0].task.proc != pid
      requires 0 <= i < |all| && node == all[i]
      requires 0 <= c < |all| && 0 <= j < |all| && current == all[j] && Moved(all, pid, c, i, j)
      modifies this`head, this`tail, this`current, (if node.prev == null then {} else {node.prev})`next
      ensures Walked(all, prevs, pid, i + 1)
      ensures 0 <= now < |all| && current == all[now] && Moved(all, pid, c, i + 1, now)
      ensures node.next == if i + 1 < |all| then all[i + 1] else null
    {
      hide Moved, NextAfter, TailAfter;
      now := MovedStep(all, pid, c, i, j);
      WalkStep(all, prevs, pid, i);
      if node.task.proc == pid {
        Unlink(node);
      }
    }

    /** If all serve, the walk leaves the other nodes linked. */
    lemma ServedLinks(all: seq<Node>, prevs: seq<Node?>, pid: nat)
      requires Settled(all, prevs) && all[0].task.proc != pid && Walked(all, prevs, pid, |all|)
      requires Serve(all, prevs, pid)
      ensures Linked(Kept(all, pid))
    {
      hide Kept, NextAfter, TailAfter;
      assert all[0..] == all;
      KeptMembers(all, pid);
      KeptChained(all, prevs, pid, 0);
    }

    /** If one does not, they are not. */
    lemma UnservedBreaks(all: seq<Node>, prevs: seq<Node?>, pid: nat)
      requires Settled(all, prevs) && all[0].task.proc != pid && Walked(all, prevs, pid, |all|)
      requires !Serve(all, prevs, pid)
      ensures !Linked(Kept(all, pid))
    {
      hide Kept, NextAfter, TailAfter;
      KeptMembers(all, pid);
      var k :| 1 <= k < |all| && all[k].task.proc == pid && !(prevs[k] == all[k - 1] && all[k - 1].task.proc != pid);
      var m := StillLinked(all, prevs, pid, k);
      var kept := Kept(all, pid);
      var t :| 0 <= t < |kept| && kept[t] == all[m];
      assert kept[t].next !in kept;
    }

    /** If a node does not serve, some node of another process is followed by one
        of this process. */
    lemma {:induction false} StillLinked(all: seq<Node>, prevs: seq<Node?>, pid: nat, k: int) returns (m: int)
      requires Settled(all, prevs) && all[0].task.proc != pid && Walked(all, prevs, pid, |all|)
      requires 1 <= k < |all| && all[k].task.proc == pid && !(prevs[k] == all[k - 1] && all[k - 1].task.proc != pid)
      ensures 0 <= m < |all| && all[m].task.proc != pid && all[m].next != null && all[m].next.task.proc == pid
      decreases k
    {
      if all[k - 1].task.proc != pid {
        m := k - 1;
      } else if prevs[k - 1] == all[k - 2] && all[k - 2].task.proc != pid {
        m := k - 2;
        assert all[m].next == all[k];
      } else {
        m := StillLinked(all, prevs, pid, k - 1);
      }
    }

    /** If all serve, the kept nodes from `i` on follow one another to the tail. */
    lemma {:induction false} KeptChained(all: seq<Node>, prevs: seq<Node?>, pid: nat, i: int)
      requires Settled(all, prevs) && all[0].task.proc != pid && Walked(all, prevs, pid, |all|)
      requires Serve(all, prevs, pid) && 0 <= i <= |all|
      ensures var kept := Kept(all[i..], pid);
        && (forall t {:trigger kept[t].next} :: 0 <= t < |kept| ==>
              kept[t].next == if t + 1 < |kept| then kept[t + 1] else null)
        && (i < |all| && all[i].task.proc != pid ==> |kept| > 0 && kept[0] == all[i])
        && (kept != [] ==> kept[|kept| - 1] == tail)
      decreases |all| - i
    {
      if i < |all| {
        KeptChained(all, prevs, pid, i + 1);
        assert all[i..][1..] == all[i + 1..];
        var rest := Kept(all[i + 1..], pid);
        if all[i].task.proc != pid {
          NextKept(all, pid, i);
          assert all[i].next == if rest == [] then null else rest[0];
        }
      }
    }
  }

  /** The nodes are distinct and each `prev` is true or names none of them. */
  ghost predicate Settled(all: seq<Node>, prevs: seq<Node?>) {
    && |prevs| == |all| > 0
    && (forall i, j :: 0 <= i < j < |all| ==> all[i] != all[j])
    && (forall k :: 1 <= k < |all| ==> prevs[k] == all[k - 1] || prevs[k] !in all)
  }

  ghost predicate Serve(all: seq<Node>, prevs: seq<Node?>, pid: nat)
    requires |prevs| == |all|
  {
    forall k :: 1 <= k < |all| && all[k].task.proc == pid ==> prevs[k] == all[k - 1] && all[k - 1].task.proc != pid
  }

  /** Dealing with node `i` moves the current task on only if it is that node and
      the node is of the process. */
  lemma MovedStep(all: seq<Node>, pid: nat, c: int, i: int, j: int) returns (now: int)
    requires 0 <= i < |all| && 0 <= c < |all| && 0 <= j < |all| && all[0].task.proc != pid && Moved(all, pid, c, i, j)
    ensures now == if all[i].task.proc == pid && j == i then (if i + 1 < |all| then i + 1 else 0) else j
    ensures Moved(all, pid, c, i + 1, now)
  {
    now := if all[i].task.proc == pid && j == i then (if i + 1 < |all| then i + 1 else 0) else j;
  }

  /** The first kept node behind `i`, when no two of the process are neighbours. */
  lemma NextKept(all: seq<Node>, pid: nat, i: int)
    requires 0 <= i < |all|
    requires i + 1 < |all| && all[i + 1].task.proc == pid && i + 2 < |all| ==> all[i + 2].task.proc != pid
    ensures var rest := Kept(all[i + 1..], pid);
      if i + 1 == |all| then rest == []
      else if all[i + 1].task.proc != pid then rest != [] && rest[0] == all[i + 1]
      else if i + 2 == |all| then rest == [] else rest != [] && rest[0] == all[i + 2]
  {
    if i + 1 < |all| {
      assert all[i + 1..][1..] == all[i + 2..];
    }
  }

  ghost predicate PrevFits(kept: seq<Node>, all: seq<Node>, pid: nat, t: int)
    requires 1 <= t < |kept|
    reads kept
  {
    kept[t].prev == kept[t - 1] || kept[t].prev !in all || kept[t].prev.task.proc == pid
  }

  /** A kept node's `prev` is the kept node before it, or no kept node. */
  lemma {:induction false} KeptPrevs(all: seq<Node>, prevs: seq<Node?>, pid: nat, i: int)
    requires Settled(all, prevs) && Serve(all, prevs, pid) && 0 <= i <= |all|
    requires forall k :: 0 <= k < |all| ==> all[k].prev == prevs[k]
    ensures forall t :: 1 <= t < |Kept(all[i..], pid)| ==> PrevFits(Kept(all[i..], pid), all, pid, t)
    decreases |all| - i
  {
    if i < |all| {
      KeptPrevs(all, prevs, pid, i + 1);
      assert all[i..][1..] == all[i + 1..];
      if all[i].task.proc != pid {
        NextKept(all, pid, i);
        var kept, rest := Kept(all[i..], pid), Kept(all[i + 1..], pid);
        assert kept == [all[i]] + rest;
        forall t | 1 <= t < |kept|
          ensures PrevFits(kept, all, pid, t)
        {
          assert kept[t] == rest[t - 1];
          assert t > 1 ==> PrevFits(rest, all, pid, t - 1);
        }
      }
    }
  }

  /** After a walk in which all served, each `prev` is again true or names none. */
  lemma KeptSettled(all: seq<Node>, pid: nat)
    requires Settled(all, Prevs(all)) && Serve(all, Prevs(all), pid) && all[0].task.proc != pid
    ensures Settled(Kept(all, pid), Prevs(Kept(all, pid)))
  {
    hide Kept, Serve;
    var kept := Kept(all, pid);
    assert all[0..] == all;
    KeptPrevs(all, Prevs(all), pid, 0);
    KeptMembers(all, pid);
    assert all[0] in kept;
    forall t | 1 <= t < |kept|
      ensures kept[t].prev == kept[t - 1] || kept[t].prev !in kept
    {
      assert PrevFits(kept, all, pid, t);
      if kept[t].prev in kept {
        var u :| 0 <= u < |kept| && kept[u] == kept[t].prev;
        assert kept[u] in all && kept[u].task.proc != pid;
        assert kept[t].prev in all;
      }
    }
  }

  /** Which nodes have their true `prev`. */
  ghost function Trust(all: seq<Node>, prevs: seq<Node?>): (t: seq<bool>)
    requires |prevs| == |all|
    ensures |t| == |all|
  {
    seq(|all|, k requires 0 <= k < |all| => k == 0 || prevs[k] == all[k - 1])
  }

  /** Which of the tasks that stay from `i` on still have it once `pid` has gone:
      those that had it and whose predecessor stays. */
  ghost function KeptTrust(tasks: seq<Task>, trust: seq<bool>, pid: nat, i: nat): seq<bool>
    requires |trust| == |tasks| && i <= |tasks|
    decreases |tasks| - i
  {
    if i == |tasks| then []
    else if tasks[i].proc == pid then KeptTrust(tasks, trust, pid, i + 1)
    else [trust[i] && (i == 0 || tasks[i - 1].proc != pid)] + KeptTrust(tasks, trust, pid, i + 1)
  }

  /** The links of the kept nodes. */
  ghost function KeptLinks(all: seq<Node>, prevs: seq<Node?>, pid: nat, i: nat): seq<Node?>
    requires |prevs| == |all| && i <= |all|
    decreases |all| - i
  {
    if i == |all| then []
    else if all[i].task.proc == pid then KeptLinks(all, prevs, pid, i + 1)
    else [prevs[i]] + KeptLinks(all, prevs, pid, i + 1)
  }

  lemma {:induction false} KeptLinksAre(all: seq<Node>, pid: nat, i: nat)
    requires i <= |all|
    ensures Prevs(Kept(all[i..], pid)) == KeptLinks(all, Prevs(all), pid, i)
    decreases |all| - i
  {
    if i < |all| {
      KeptLinksAre(all, pid, i + 1);
      assert all[i..][1..] == all[i + 1..];
      if all[i].task.proc != pid {
        var rest := Kept(all[i + 1..], pid);
        assert Prevs([all[i]] + rest) == [all[i].prev] + Prevs(rest);
      }
    }
  }

  /** In a settled list, the freeing walk leaves exactly that trust. */
  lemma {:induction false} TrustOfKept(all: seq<Node>, prevs: seq<Node?>, pid: nat, i: nat)
    requires Settled(all, prevs) && Serve(all, prevs, pid) && i <= |all|
    ensures var kept, links := Kept(all[i..], pid), KeptLinks(all, prevs, pid, i);
      var trust := KeptTrust(TasksOf(all), Trust(all, prevs), pid, i);
      && |kept| == |trust| == |links|
      && forall t :: 1 <= t < |kept| ==> (trust[t] <==> links[t] == kept[t - 1])
    decreases |all| - i
  {
    if i < |all| {
      TrustOfKept(all, prevs, pid, i + 1);
      assert all[i..][1..] == all[i + 1..];
      if all[i].task.proc != pid {
        FirstTrust(all, prevs, pid, i);
        var kept, rest := Kept(all[i..], pid), Kept(all[i + 1..], pid);
        var links, fewer := KeptLinks(all, prevs, pid, i), KeptLinks(all, prevs, pid, i + 1);
        var trust := KeptTrust(TasksOf(all), Trust(all, prevs), pid, i);
        var less := KeptTrust(TasksOf(all), Trust(all, prevs), pid, i + 1);
        forall t | 1 <= t < |kept|
          ensures trust[t] <==> links[t] == kept[t - 1]
        {
          assert kept[t] == rest[t - 1] && trust[t] == less[t - 1] && links[t] == fewer[t - 1];
        }
      }
    }
  }

  /** The first that stays behind node `i` is trusted exactly if its `prev` is `i`. */
  lemma FirstTrust(all: seq<Node>, prevs: seq<Node?>, pid: nat, i: nat)
    requires Settled(all, prevs) && Serve(all, prevs, pid) && i < |all| && all[i].task.proc != pid
    ensures var links := KeptLinks(all, prevs, pid, i + 1);
      var trust := KeptTrust(TasksOf(all), Trust(all, prevs), pid, i + 1);
      links != [] ==> trust != [] && (trust[0] <==> links[0] == all[i])
  {
    var tasks, trust := TasksOf(all), Trust(all, prevs);
    hide TasksOf, Trust;
    if i + 1 < |all| {
      assert tasks[i + 1] == all[i + 1].task && tasks[i] == all[i].task && (trust[i + 1] <==> prevs[i + 1] == all[i]);
      if all[i + 1].task.proc == pid && i + 2 < |all| {
        assert tasks[i + 2] == all[i + 2].task && tasks[i + 2].proc != pid;
        assert !KeptTrust(tasks, trust, pid, i + 2)[0] && KeptLinks(all, prevs, pid, i + 2)[0] == prevs[i + 2];
        assert prevs[i + 2] == all[i + 1] || prevs[i + 2] !in all;
      }
    }
  }

  /** Kept links are among the links, and the first kept node keeps its trust. */
  lemma {:induction false} KeptFootprint(all: seq<Node>, prevs: seq<Node?>, pid: nat, i: nat)
    requires |prevs| == |all| && i <= |all|
    ensures var kept, links := Kept(all[i..], pid), KeptLinks(all, prevs, pid, i);
      |links| == |kept| && Footprint(kept, links) <= Footprint(all, prevs)
    decreases |all| - i
  {
    if i < |all| {
      KeptFootprint(all, prevs, pid, i + 1);
      assert all[i..][1..] == all[i + 1..];
      if all[i].task.proc != pid {
        var rest, fewer := Kept(all[i + 1..], pid), KeptLinks(all, prevs, pid, i + 1);
        ConsFootprint(all[i], prevs[i], rest, fewer);
        assert all[i] in Footprint(all, prevs) && (prevs[i] != null ==> prevs[i] in Footprint(all, prevs));
      }
    }
  }

  lemma ConsFootprint(node: Node, prev: Node?, rest: seq<Node>, links: seq<Node?>)
    requires |links| == |rest|
    ensures forall o :: o in Footprint([node] + rest, [prev] + links) ==>
      o == node || o == prev || o in Footprint(rest, links)
  {
    var all, prevs := [node] + rest, [prev] + links;
    forall o | o in Footprint(all, prevs)
      ensures o == node || o == prev || o in Footprint(rest, links)
    {
      var k :| 0 <= k < |all| && (o == all[k] || o == prevs[k]);
      if k > 0 {
        assert all[k] == rest[k - 1] && prevs[k] == links[k - 1];
      }
    }
  }

  /** A current task that has moved past all of the process's is the survivor. */
  lemma MovedToSurvivor(all: seq<Node>, pid: nat, c: int, j: int)
    requires 0 <= c < |all| && 0 <= j < |all| && all[0].task.proc != pid && Moved(all, pid, c, |all|, j)
    ensures j == Survivor(TasksOf(all), pid, c)
  {
    hide FirstOther;
    var tasks := TasksOf(all);
    if c <= j && forall k :: c <= k < j ==> all[k].task.proc == pid {
      FirstOtherIs(tasks, pid, c, j);
    } else {
      FirstOtherIs(tasks, pid, c, |tasks|);
      FirstOtherIs(tasks, pid, 0, 0);
    }
  }

  /** The `prev` links in list order. */
  ghost function Prevs(s: seq<Node>): (ps: seq<Node?>)
    reads s
    ensures |ps| == |s|
  {
    seq(|s|, k requires 0 <= k < |s| reads s => s[k].prev)
  }

  ghost function PrevObjects(s: seq<Node>): set<object>
    reads s
  {
    set k | 0 <= k < |s| && s[k].prev != null :: s[k].prev
  }

  /** The nodes and what their `prev` links name. */
  ghost function Footprint(all: seq<Node>, prevs: seq<Node?>): set<object>
    requires |prevs| == |all|
  {
    (set k | 0 <= k < |all| :: all[k]) + set k | 0 <= k < |all| && prevs[k] != null :: prevs[k]
  }

  /** Node `k` belongs to the process and is unlinked by its true `prev`. */
  ghost predicate Skipped(all: seq<Node>, prevs: seq<Node?>, pid: nat, k: int)
    requires |prevs| == |all|
  {
    1 <= k < |all| && all[k].task.proc == pid && prevs[k] == all[k - 1]
  }

  /** The `next` of node `k` once the walk has dealt with the first `i` nodes. */
  ghost function NextAfter(all: seq<Node>, prevs: seq<Node?>, pid: nat, i: int, k: int): Node?
    requires |prevs| == |all| && 0 <= k
  {
    var m := if k + 1 < i && Skipped(all, prevs, pid, k + 1) then k + 2 else k + 1;
    if m < |all| then all[m] else null
  }

  /** What dealing with node `i` changes. */
  lemma WalkStep(all: seq<Node>, prevs: seq<Node?>, pid: nat, i: int)
    requires Settled(all, prevs) && 0 <= i < |all|
    ensures forall k :: 0 <= k < |all| ==>
      NextAfter(all, prevs, pid, i + 1, k) ==
        if all[i].task.proc == pid && i > 0 && all[k] == prevs[i] then NextAfter(all, prevs, pid, i, i)
        else NextAfter(all, prevs, pid, i, k)
    ensures NextAfter(all, prevs, pid, i, i) == NextAfter(all, prevs, pid, i + 1, i)
    ensures NextAfter(all, prevs, pid, i, i) == if i + 1 < |all| then all[i + 1] else null
    ensures TailAfter(all, prevs, pid, i + 1)
      == if all[i].task.proc == pid && TailAfter(all, prevs, pid, i) == all[i] then prevs[i]
         else TailAfter(all, prevs, pid, i)
  {
  }

  ghost function TailAfter(all: seq<Node>, prevs: seq<Node?>, pid: nat, i: int): Node?
    requires |prevs| == |all| > 0
  {
    var n := |all|;
    if i == n && all[n - 1].task.proc == pid then prevs[n - 1] else all[n - 1]
  }

  /** Index `j` is where the current task has moved from `c` so far. */
  ghost predicate Moved(all: seq<Node>, pid: nat, c: int, i: int, j: int)
    requires 0 <= c < |all| && 0 <= j < |all|
  {
    && (j < i ==> all[j].task.proc != pid)
    && ((c <= j && forall k :: c <= k < j ==> all[k].task.proc == pid)
        || (j == 0 && forall k :: c <= k < |all| ==> all[k].task.proc == pid))
  }
}

/**
 A process's keyboard buffer: a ring of 1024 characters in which NUL marks an
 empty slot.
 */
module KeyboardRing {
  import opened Basics

  const SIZE := 1024

  datatype Op = Push(c: char) | Pop

  /** The first-in first-out queue the ring stands for. */
  ghost function Queue(pending: seq<char>, op: Op): seq<char> {
    match op
    case Push(c) => if c == NUL then pending else pending + [c]
    case Pop => if pending == [] then [] else pending[1..]
  }

  /** The output of one operation. */
  ghost function Output(q: seq<char>, op: Op): seq<char> {
    if op.Push? then [] else if q == [] then [NUL] else [q[0]]
  }

  /** What each pop of a run returns; NUL for an empty queue. */
  ghost function Outputs(pending: seq<char>, ops: seq<Op>): seq<char>
    decreases |ops|
  {
    if ops == [] then []
    else
      Output(pending, ops[0]) + Outputs(Queue(pending, ops[0]), ops[1..])
  }

  ghost function Final(pending: seq<char>, ops: seq<Op>): seq<char>
    decreases |ops|
  {
    if ops == [] then pending else Final(Queue(pending, ops[0]), ops[1..])
  }

  ghost function PushedBy(op: Op): seq<char> {
    if op.Push? && op.c != NUL then [op.c] else []
  }

  /** The characters a run pushes, in order; NUL is none. */
  ghost function Pushed(ops: seq<Op>): seq<char> {
    if ops == [] then [] else PushedBy(ops[0]) + Pushed(ops[1..])
  }

  ghost function WithoutNul(s: seq<char>): seq<char> {
    if s == [] then [] else (if s[0] == NUL then [] else [s[0]]) + WithoutNul(s[1..])
  }

  /** First in, first out: what a run pops, followed by what is pending at its end,
      is what was pending at its start, followed by what it pushed. */
  lemma {:induction false} FirstInFirstOut(pending: seq<char>, ops: seq<Op>)
    requires NUL !in pending
    ensures WithoutNul(Outputs(pending, ops)) + Final(pending, ops) == pending + Pushed(ops)
    decreases |ops|
  {
    if ops == [] {
      assert pending + [] == [] + pending;
    } else {
      var op, next := ops[0], Queue(pending, ops[0]);
      FirstInFirstOut(next, ops[1..]);
      PopOrPush(pending, op);
      OneOutput(pending, op, Outputs(next, ops[1..]));
      Reassociate(WithoutNul(Output(pending, op)), WithoutNul(Outputs(next, ops[1..])), Final(next, ops[1..]),
                  next, Pushed(ops[1..]), pending, PushedBy(op));
    }
  }

  lemma Reassociate(out: seq<char>, popped: seq<char>, final: seq<char>, next: seq<char>, pushed: seq<char>,
                    pending: seq<char>, more: seq<char>)
    requires popped + final == next + pushed && out + next == pending + more
    ensures (out + popped) + final == pending + (more + pushed)
  {
    assert (out + popped) + final == out + (popped + final);
    assert out + (next + pushed) == (out + next) + pushed;
  }

  /** One operation: what comes out and what is pending then are what was pending
      and what it pushed. */
  lemma PopOrPush(pending: seq<char>, op: Op)
    requires NUL !in pending
    ensures WithoutNul(Output(pending, op)) + Queue(pending, op) == pending + PushedBy(op)
  {
    if op.Pop? && pending != [] {
      assert pending == [pending[0]] + pending[1..] && [pending[0]][1..] == [];
    }
  }

  lemma OneOutput(pending: seq<char>, op: Op, rest: seq<char>)
    ensures WithoutNul(Output(pending, op) + rest) == WithoutNul(Output(pending, op)) + WithoutNul(rest)
  {
    var out := Output(pending, op);
    if out == [] {
      assert [] + rest == rest;
    } else {
      assert (out + rest)[1..] == rest && out[1..] == [];
    }
  }

  /** At no time are more than 1024 characters pending. */
  ghost predicate NeverFull(pending: seq<char>, ops: seq<Op>)
    decreases |ops|
  {
    |pending| <= 1024 && (ops != [] ==> NeverFull(Queue(pending, ops[0]), ops[1..]))
  }

  class Ring {
    const buffer: array<char>
    var head: int
    var tail: int

    constructor ()
      ensures Holds([]) && fresh(buffer)
    {
      buffer := new char[SIZE](_ => NUL);
      head, tail := 0, 0;
    }

    /** Pops, which look at the head alone, will return these characters. */
    ghost predicate Offers(pending: seq<char>)
      reads this, buffer
    {
      && buffer.Length == SIZE && 0 <= head && |pending| <= SIZE
      && RingHolds(buffer[..], head, pending)
    }

    /** The ring stands for the queue `pending`. */
    ghost predicate Holds(pending: seq<char>)
      reads this, buffer
    {
      Offers(pending) && tail == head + |pending|
    }

    /** A push appends exactly when the ring is not full. On a full ring it takes
        the place of the oldest character: pops then return it first, and pushes
        and pops have lost step. */
    method Push(c: char, ghost pending: seq<char>)
      requires Holds(pending)
      modifies this`tail, buffer
      ensures c == NUL || |pending| < 1024 ==> Holds(Queue(pending, Op.Push(c)))
      ensures c != NUL && |pending| == 1024 ==>
        Offers([c] + pending[1..]) && tail == head + 1025 && forall q :: !Holds(q)
    {
      hide RingHolds;
      if c == NUL {
        return;
      }
      if |pending| < SIZE {
        PushKeeps(buffer[..], head, pending, c);
      } else {
        PushFull(buffer[..], head, pending, c);
      }
      var index := tail % SIZE;
      buffer[index] := c;
      tail := tail + 1;
    }

    method Pop(ghost pending: seq<char>) returns (c: char)
      requires Offers(pending)
      modifies this`head, buffer
      ensures Offers(Queue(pending, Op.Pop)) && head == old(head) + (if pending == [] then 0 else 1)
      ensures c == if pending == [] then NUL else pending[0]
    {
      hide RingHolds;
      var index := head % SIZE;
      PopKeeps(buffer[..], head, pending);
      c := buffer[index];
      if c == NUL {
        return NUL;
      }
      buffer[index] := NUL;
      head := head + 1;
    }

    /** A character pushed on a full ring jumps the queue: it comes out first, then
        all that were pending but the first of them, which is gone. */
    method Overflow(c: char, ghost pending: seq<char>) returns (outs: seq<char>)
      requires Holds(pending) && |pending| == 1024 && c != NUL
      modifies this, buffer
      ensures outs == [c] + pending[1..] && Offers([])
    {
      hide Offers;
      Push(c, pending);
      ghost var all := [c] + pending[1..];
      outs := [];
      assert all[0..] == all;
      for i := 0 to SIZE
        invariant outs == all[..i] && Offers(all[i..])
      {
        assert all[i..][1..] == all[i + 1..] && all[i..][0] == all[i];
        var out := Pop(all[i..]);
        outs := outs + [out];
      }
      assert all[..SIZE] == all && all[SIZE..] == [];
    }

    /** One operation: what it returns and what is pending then. */
    method Do(op: Op, ghost pending: seq<char>) returns (out: seq<char>)
      requires Holds(pending) && (op.Push? ==> op.c == NUL || |pending| < 1024)
      modifies this, buffer
      ensures out == Output(pending, op) && Holds(Queue(pending, op))
    {
      hide RingHolds;
      match op {
        case Push(c) =>
          Push(c, pending);
          out := [];
        case Pop =>
          var c := Pop(pending);
          out := [c];
      }
    }

    /** Every interleaving of pushes and pops within the capacity gives the
        outputs of a first-in first-out queue. */
    method Run(ops: seq<Op>, ghost pending: seq<char>) returns (outs: seq<char>)
      requires Holds(pending) && NeverFull(pending, ops)
      modifies this, buffer
      ensures outs == Outputs(pending, ops) && Holds(Final(pending, ops))
      ensures WithoutNul(outs) + Final(pending, ops) == pending + Pushed(ops)
    {
      assert NUL !in pending;
      FirstInFirstOut(pending, ops);
      hide Holds, Outputs, Output, Queue, Final, NeverFull, Pushed, WithoutNul;
      outs := [];
      ghost var q := pending;
      assert ops[0..] == ops;
      for i := 0 to |ops|
        invariant Holds(q) && NeverFull(q, ops[i..])
        invariant outs + Outputs(q, ops[i..]) == Outputs(pending, ops)
        invariant Final(q, ops[i..]) == Final(pending, ops)
      {
        RunStep(q, ops, i, outs);
        var out := Do(ops[i], q);
        outs := outs + out;
        q := Queue(q, ops[i]);
      }
      RunEnd(q, ops[|ops|..]);
    }
  }

  lemma RunStep(q: seq<char>, ops: seq<Op>, i: nat, outs: seq<char>)
    requires i < |ops| && NeverFull(q, ops[i..])
    ensures var next := Queue(q, ops[i]);
      && NeverFull(next, ops[i + 1..]) && Final(q, ops[i..]) == Final(next, ops[i + 1..])
      && outs + Outputs(q, ops[i..]) == outs + Output(q, ops[i]) + Outputs(next, ops[i + 1..])
    ensures ops[i].Push? ==> ops[i].c == NUL || |q| < SIZE
  {
    assert ops[i..][0] == ops[i] && ops[i..][1..] == ops[i + 1..];
    var next := Queue(q, ops[i]);
    var rest := Outputs(next, ops[i + 1..]);
    assert outs + (Output(q, ops[i]) + rest) == outs + Output(q, ops[i]) + rest;
  }

  lemma RunEnd(q: seq<char>, ops: seq<Op>)
    requires ops == []
    ensures Outputs(q, ops) == [] && Final(q, ops) == q
  {
  }

  // ------------------------------------------------------ the ring's slots

  ghost function Slot(head: int, i: int): (k: int)
    ensures 0 <= k < SIZE
  {
    (head + i) % SIZE
  }

  /** How far slot `k` lies behind the head, going round. */
  ghost function Distance(head: int, k: int): (n: int)
    ensures 0 <= n < SIZE
  {
    (k - head) % SIZE
  }

  /** The pending characters follow the head; all other slots are empty. */
  ghost predicate RingHolds(buf: seq<char>, head: int, pending: seq<char>)
    requires |buf| == SIZE
  {
    && (forall i :: 0 <= i < |pending| ==> pending[i] != NUL && buf[Slot(head, i)] == pending[i])
    && (forall k :: 0 <= k < SIZE && Distance(head, k) >= |pending| ==> buf[k] == NUL)
  }

  lemma SlotDistance(head: int, i: int)
    requires 0 <= i < SIZE
    ensures Distance(head, Slot(head, i)) == i
  {
  }

  lemma SlotWraps(head: int)
    ensures Slot(head, SIZE) == Slot(head, 0)
  {
  }

  /** On a full ring the tail slot is the head's. */
  lemma PushFull(buf: seq<char>, head: int, pending: seq<char>, c: char)
    requires |buf| == SIZE && RingHolds(buf, head, pending) && |pending| == SIZE && c != NUL
    ensures RingHolds(buf[Slot(head, SIZE) := c], head, [c] + pending[1..])
  {
    SlotWraps(head);
    hide Slot, Distance;
    forall i | 1 <= i < SIZE
      ensures Slot(head, i) != Slot(head, 0)
    {
      SlotDistance(head, i);
      SlotDistance(head, 0);
    }
  }

  lemma NextHead(head: int, k: int)
    requires 0 <= k < SIZE
    ensures k == Slot(head, 0) || Distance(head, k) == Distance(head + 1, k) + 1
  {
  }

  lemma PushKeeps(buf: seq<char>, head: int, pending: seq<char>, c: char)
    requires |buf| == SIZE && RingHolds(buf, head, pending) && |pending| < SIZE && c != NUL
    ensures RingHolds(buf[Slot(head, |pending|) := c], head, pending + [c])
  {
    hide Slot, Distance;
    var n := |pending|;
    SlotDistance(head, n);
    forall i | 0 <= i < n
      ensures Slot(head, i) != Slot(head, n)
    {
      SlotDistance(head, i);
    }
  }

  lemma PopKeeps(buf: seq<char>, head: int, pending: seq<char>)
    requires |buf| == SIZE && RingHolds(buf, head, pending) && |pending| <= SIZE
    ensures buf[Slot(head, 0)] == if pending == [] then NUL else pending[0]
    ensures pending != [] ==> pending[0] != NUL && RingHolds(buf[Slot(head, 0) := NUL], head + 1, pending[1..])
  {
    hide Distance;
    SlotDistance(head, 0);
    if pending != [] {
      var after := buf[Slot(head, 0) := NUL];
      forall i | 0 <= i < |pending| - 1
        ensures after[Slot(head + 1, i)] == pending[1..][i]
      {
        assert Slot(head + 1, i) == Slot(head, i + 1);
        SlotDistance(head, i + 1);
      }
      forall k | 0 <= k < SIZE && Distance(head + 1, k) >= |pending| - 1
        ensures after[k] == NUL
      {
        NextHead(head, k);
      }
    }
  }
}

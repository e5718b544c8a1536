/**
 From a typed command line to a list of arguments: the shell splits the line at
 its spaces and links one node per word. Module `ArgumentVector` follows the
 list into the new process.
 */
module CommandLine {
  import opened Basics
  import opened Strtok

  const COMMAND_SIZE := 1025
  const ARGUMENT_SIZE := 512

  /** What `strncpy` into a buffer of `count` bytes keeps of a string. */
  function Cut(s: string, count: nat): string
    requires count >= 1
  {
    if |s| < count then s else s[..count - 1]
  }

  /** The space-separated words of the part of the line that is kept, each cut
      to an argument's size. */
  ghost function ArgumentsOf(command: string): seq<string> {
    CutAll(Words(Cut(command, COMMAND_SIZE), " ", 0))
  }

  ghost function CutAll(words: seq<string>): (r: seq<string>)
    ensures |r| == |words|
  {
    seq(|words|, i requires 0 <= i < |words| => Cut(words[i], ARGUMENT_SIZE))
  }

  /** `s` is the start of `whole`, up to `most` characters of it. */
  ghost predicate IsStart(s: string, whole: string, most: nat) {
    s <= whole && |s| == if |whole| <= most then |whole| else most
  }

  lemma CutIsStart(s: string, count: nat)
    requires count >= 1
    ensures IsStart(Cut(s, count), s, count - 1)
  {
  }

  /** The arguments are the words of a text: `spans` are exactly its maximal runs of
      characters other than a space, in order, and each argument is the start of its
      run, up to 511 characters. */
  ghost predicate AreWords(text: string, spans: seq<Span>, args: seq<string>) {
    && InOrder(spans) && (forall r :: r in spans <==> IsMaximalRun(text, " ", r)) && |args| == |spans|
    && forall k :: 0 <= k < |spans| ==>
         spans[k].from <= spans[k].to <= |text| && IsStart(args[k], text[spans[k].from..spans[k].to], 511)
  }

  /** The arguments of a line are the words of its first 1024 characters. */
  lemma ArgumentsAreWords(command: string) returns (text: string, spans: seq<Span>)
    ensures IsStart(text, command, 1024) && AreWords(text, spans, ArgumentsOf(command))
  {
    text := Cut(command, COMMAND_SIZE);
    spans := Spans(text, " ", 0);
    CutIsStart(command, COMMAND_SIZE);
    WordsAreSpans(text, " ", 0);
    SpansExact(text, " ", 0);
    SpansInOrder(text, " ", 0);
    var words, args := Words(text, " ", 0), ArgumentsOf(command);
    hide Spans, Words, InOrder, IsMaximalRun;
    forall k | 0 <= k < |spans|
      ensures spans[k].from <= spans[k].to <= |text| && IsStart(args[k], text[spans[k].from..spans[k].to], 511)
    {
      CutIsStart(words[k], ARGUMENT_SIZE);
    }
  }

  /** A line of at most 1024 characters whose words have at most 511: the arguments
      are exactly its words. */
  lemma ShortLine(command: string) returns (spans: seq<Span>)
    requires |command| <= 1024 && forall r :: IsMaximalRun(command, " ", r) ==> r.to - r.from <= 511
    ensures InOrder(spans) && (forall r :: r in spans <==> IsMaximalRun(command, " ", r))
    ensures |ArgumentsOf(command)| == |spans|
    ensures forall k :: 0 <= k < |spans| ==>
      spans[k].from <= spans[k].to <= |command| && ArgumentsOf(command)[k] == command[spans[k].from..spans[k].to]
  {
    var text;
    text, spans := ArgumentsAreWords(command);
    assert text == command;
    hide IsMaximalRun, ArgumentsOf, InOrder;
    forall k | 0 <= k < |spans|
      ensures ArgumentsOf(command)[k] == command[spans[k].from..spans[k].to]
    {
      assert spans[k] in spans;
    }
  }

  class Argument {
    var argument: string
    var next: Argument?

    constructor (argument: string)
      ensures this.argument == argument && next == null
    {
      this.argument := argument;
      next := null;
    }
  }

  /** The list from `root` runs through exactly these nodes with these strings. */
  ghost predicate IsList(root: Argument?, nodes: seq<Argument>, args: seq<string>)
    reads nodes
  {
    && |nodes| == |args|
    && root == (if nodes == [] then null else nodes[0])
    && (forall i, j :: 0 <= i < j < |nodes| ==> nodes[i] != nodes[j])
    && (forall i {:trigger nodes[i].next} :: 0 <= i < |nodes| ==>
          nodes[i].next == if i + 1 < |nodes| then nodes[i + 1] else null)
    && (forall i :: 0 <= i < |nodes| ==> nodes[i].argument == args[i])
  }

  /** `strncpy` into a fresh buffer: characters up to `count - 1`, then NUL. */
  method Strncpy(dest: array<char>, src: string, count: nat)
    requires 1 <= count == dest.Length && NUL !in src
    modifies dest
    ensures HoldsFrom(dest[..], 0, Cut(src, count)) && NUL !in Cut(src, count)
    ensures var n := if |src| <= count - 1 then |src| else count - 1;
      (forall k :: 0 <= k < n ==> dest[k] == src[k]) && dest[n] == NUL
  {
    var i := 0;
    while i < count - 1 && i < |src|
      invariant 0 <= i <= count - 1 && i <= |src|
      invariant forall k :: 0 <= k < i ==> dest[k] == src[k]
    {
      dest[i] := src[i];
      i := i + 1;
    }
    dest[i] := NUL;
  }

  /** The string that starts at `p` in a buffer, cut to `count - 1` characters. */
  method ReadString(buf: array<char>, p: nat, count: nat, ghost text: string, ghost b: nat) returns (s: string)
    requires p <= b <= |text| && NUL !in text && HoldsToken(buf[..], text, p, b) && count >= 1
    ensures s == Cut(text[p..b], count) && IsStart(s, text[p..b], count - 1)
  {
    s := [];
    var i := 0;
    while i < count - 1
      invariant 0 <= i <= count - 1 && p + i <= b && s == text[p..p + i]
    {
      assert buf[p + i] == buf[..][p + i];
      assert p + i < b ==> text[p + i] in text && buf[p + i] == text[p + i];
      if buf[p + i] == NUL {
        assert p + i == b && text[p..p + i] == text[p..b];
        break;
      }
      s := s + [buf[p + i]];
      i := i + 1;
    }
    assert text[p..p + i] == text[p..b][..i];
  }

  /** Splits a command line. `memory` is how many list nodes can be allocated;
      when it runs out the list is cut short. */
  method ParseCommand(command: string, max: int, memory: nat) returns (root: Argument?, ghost nodes: seq<Argument>)
    requires NUL !in command
    ensures max > 1024 ==> root == null && nodes == []
    ensures max <= 1024 ==>
      var args := ArgumentsOf(command);
      && fresh(nodes)
      && IsList(root, nodes, if memory < |args| then args[..memory] else args)
    ensures max <= 1024 ==>
      exists text, spans, args :: IsStart(text, command, 1024) && AreWords(text, spans, args)
        && IsList(root, nodes, if memory < |args| then args[..memory] else args)
  {
    ghost var whole, spans := ArgumentsAreWords(command);
    hide SkipDelims, TokenEnd, Words, CutAll, Cut, Spans, AreWords, IsStart;
    nodes, root := [], null;
    if max >= COMMAND_SIZE {
      return;
    }
    var buf := new char[COMMAND_SIZE];
    Strncpy(buf, command, COMMAND_SIZE);
    ghost var text := Cut(command, COMMAND_SIZE);
    var tokenizer := new Tokenizer(buf);
    tokenizer.Reset();
    var token := tokenizer.Next(buf, " ", text);
    root, nodes := CollectArguments(tokenizer, token, memory, text, ArgumentsOf(command));
    assert IsStart(whole, command, 1024) && AreWords(whole, spans, ArgumentsOf(command));
  }

  /** The loop of the parser: one list node per token while memory lasts. */
  method CollectArguments(tokenizer: Tokenizer, firstToken: int, memory: nat,
                          ghost text: string, ghost all: seq<string>)
    returns (root: Argument?, ghost nodes: seq<Argument>)
    requires NUL !in text && all == CutAll(Words(text, " ", 0))
    requires Pending(text, " ", 0, firstToken, tokenizer.sp, tokenizer.buf[..])
    modifies tokenizer, tokenizer.buf
    ensures fresh(nodes) && IsList(root, nodes, if memory < |all| then all[..memory] else all)
  {
    hide SkipDelims, TokenEnd, Words, CutAll, Cut, Pending, Spans, HoldsFrom, HoldsToken, After, IsList;
    nodes, root := [], null;
    NoArguments(all);
    var token := firstToken;
    var last: Argument? := null;
    ghost var p := 0;
    var used := 0;
    while token != -1
      invariant tokenizer.buf == old(tokenizer.buf) && fresh(nodes) && 0 <= p <= |text|
      invariant Pending(text, " ", p, token, tokenizer.sp, tokenizer.buf[..])
      invariant |nodes| == used && used <= memory && used <= |all|
      invariant IsList(root, nodes, all[..used])
      invariant all[used..] == CutAll(Words(text, " ", p))
      invariant last == (if nodes == [] then null else nodes[|nodes| - 1])
      decreases |text| - p + (if token == -1 then 0 else 1)
    {
      PendingToken(text, " ", p, token, tokenizer.sp, tokenizer.buf[..]);
      NextArgument(text, p, all, used);
      if used == memory {
        break;
      }
      ghost var b := TokenEnd(text, " ", token);
      var s := ReadString(tokenizer.buf, token, ARGUMENT_SIZE, text, b);
      root, last, nodes := AppendArgument(root, last, s, nodes, all[..used]);
      assert all[..used] + [s] == all[..used + 1];
      used := used + 1;
      token := tokenizer.Following(" ", text, p);
      p := After(|text|, b);
    }
    if token == -1 {
      PendingEnd(text, " ", p, token, tokenizer.sp, tokenizer.buf[..]);
      NoMoreArguments(text, p);
      assert all[..used] == all;
    }
  }

  /** The token in hand is the next argument. */
  lemma NextArgument(text: string, p: nat, all: seq<string>, used: nat)
    requires p <= |text| && used <= |all| && all[used..] == CutAll(Words(text, " ", p))
    requires SkipDelims(text, " ", p) < |text|
    ensures var a := SkipDelims(text, " ", p); var b := TokenEnd(text, " ", a);
      && used < |all| && all[used] == Cut(text[a..b], ARGUMENT_SIZE)
      && all[used + 1..] == CutAll(Words(text, " ", After(|text|, b)))
  {
    var words := Words(text, " ", p);
    var rest := CutAll(words);
    assert |words| > 0 && all[used] == all[used..][0];
    assert all[used + 1..] == all[used..][1..];
    var a := SkipDelims(text, " ", p);
    var b := TokenEnd(text, " ", a);
    assert words[1..] == Words(text, " ", After(|text|, b));
    assert rest[1..] == CutAll(words[1..]);
  }

  lemma NoArguments(all: seq<string>)
    ensures IsList(null, [], all[..0])
  {
  }

  lemma NoMoreArguments(text: string, p: nat)
    requires p <= |text| && SkipDelims(text, " ", p) == |text|
    ensures CutAll(Words(text, " ", p)) == []
  {
  }

  /** Links a new node behind the last one. */
  method AppendArgument(root: Argument?, last: Argument?, s: string,
                        ghost nodes: seq<Argument>, ghost args: seq<string>)
    returns (first: Argument, node: Argument, ghost more: seq<Argument>)
    requires IsList(root, nodes, args) && last == (if nodes == [] then null else nodes[|nodes| - 1])
    modifies if last == null then {} else {last}
    ensures fresh(node) && more == nodes + [node] && IsList(first, more, args + [s])
  {
    node := new Argument(s);
    first := node;
    if last != null {
      last.next := node;
      first := root;
    }
    more := nodes + [node];
  }

  method CountArguments(root: Argument?, ghost nodes: seq<Argument>, ghost args: seq<string>) returns (n: int)
    requires IsList(root, nodes, args)
    ensures n == |args|
  {
    n := 0;
    var current := root;
    while current != null
      invariant 0 <= n <= |nodes| && current == if n < |nodes| then nodes[n] else null
      decreases |nodes| - n
    {
      assert nodes[n].next == if n + 1 < |nodes| then nodes[n + 1] else null;
      n := n + 1;
      current := current.next;
    }
  }

  /** A word and its delimiter take two characters. */
  lemma {:induction false} WordCount(s: string, d: string, p: nat)
    requires p <= |s|
    ensures 2 * |Words(s, d, p)| <= |s| - p + 1
    decreases |s| - p
  {
    var a := SkipDelims(s, d, p);
    if a < |s| {
      var b := TokenEnd(s, d, a);
      if b < |s| {
        WordCount(s, d, b + 1);
      }
    }
  }

  /** What the arguments of a command line look like. */
  lemma ArgumentsFit(command: string)
    ensures 2 * |ArgumentsOf(command)| <= COMMAND_SIZE
    ensures forall i :: 0 <= i < |ArgumentsOf(command)| ==> |ArgumentsOf(command)[i]| < ARGUMENT_SIZE
  {
    WordCount(Cut(command, COMMAND_SIZE), " ", 0);
  }

  /** Every word of a string is made of its characters. */
  lemma {:induction false} WordsFrom(s: string, d: string, p: nat)
    requires p <= |s|
    ensures forall w, x :: w in Words(s, d, p) && x in w ==> x in s
    decreases |s| - p
  {
    var a := SkipDelims(s, d, p);
    if a < |s| {
      WordsFrom(s, d, After(|s|, TokenEnd(s, d, a)));
    }
  }

  lemma ArgumentCharacter(command: string, i: nat, j: nat)
    requires i < |ArgumentsOf(command)| && j < |ArgumentsOf(command)[i]|
    ensures ArgumentsOf(command)[i][j] in command
  {
    var text := Cut(command, COMMAND_SIZE);
    var words := Words(text, " ", 0);
    WordsFrom(text, " ", 0);
    assert words[i] in words && words[i][j] in words[i];
  }
}

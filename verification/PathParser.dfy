/**
 Parsing absolute paths such as "0:/sys/bin/shell": a drive digit, ":/", and
 components separated by slashes, up to the first empty one.
 */
module PathParser {
  import opened Basics

  const MAX_PATH := 108

  class PathPart {
    const part: string
    var next: PathPart?

    constructor (part: string)
      ensures this.part == part && next == null
    {
      this.part := part;
      next := null;
    }
  }

  /** A parsed path; it may have no part, as for "0:/". */
  class PathRoot {
    const drive: int
    var first: PathPart?

    constructor (drive: int)
      ensures this.drive == drive && first == null
    {
      this.drive := drive;
      first := null;
    }
  }

  /** The nodes from `first` on are linked in this order and hold these parts. */
  ghost predicate IsPath(first: PathPart?, nodes: seq<PathPart>, parts: seq<string>)
    reads nodes
  {
    && |nodes| == |parts|
    && first == (if nodes == [] then null else nodes[0])
    && (forall i, j :: 0 <= i < j < |nodes| ==> nodes[i] != nodes[j])
    && (forall i {:trigger nodes[i].next} :: 0 <= i < |nodes| ==>
          nodes[i].next == if i + 1 < |nodes| then nodes[i + 1] else null)
    && (forall i :: 0 <= i < |nodes| ==> nodes[i].part == parts[i])
  }

  // ------------------------------------------------------- specification

  /** The position of the first slash, or the end. */
  ghost function FirstSlash(s: string): (e: nat)
    ensures e <= |s| && '/' !in s[..e] && (e < |s| ==> s[e] == '/')
  {
    if s == [] || s[0] == '/' then 0
    else
      assert s[..FirstSlash(s[1..]) + 1] == [s[0]] + s[1..][..FirstSlash(s[1..])];
      FirstSlash(s[1..]) + 1
  }

  /** All components between slashes, empty ones included. */
  ghost function Split(s: string): (parts: seq<string>)
    ensures |parts| > 0
    decreases |s|
  {
    var e := FirstSlash(s);
    if e == |s| then [s] else [s[..e]] + Split(s[e + 1..])
  }

  /** The components before the first empty one. */
  ghost function BeforeEmpty(parts: seq<string>): seq<string> {
    if parts == [] || parts[0] == [] then [] else [parts[0]] + BeforeEmpty(parts[1..])
  }

  function Join(parts: seq<string>): string {
    if parts == [] then [] else if |parts| == 1 then parts[0] else parts[0] + "/" + Join(parts[1..])
  }

  /** A drive prefix is present. */
  predicate ValidFormat(path: string) {
    |path| >= 3 && IsDigit(path[0]) && path[1] == ':' && path[2] == '/'
  }

  ghost predicate ProperParts(parts: seq<string>) {
    forall i :: 0 <= i < |parts| ==> parts[i] != [] && '/' !in parts[i]
  }

  lemma FirstSlashOf(a: string, b: string)
    requires '/' !in a
    ensures FirstSlash(a) == |a| && FirstSlash(a + "/" + b) == |a|
  {
    var s := a + "/" + b;
    assert a[..|a|] == a && s[..|a|] == a;
    SlashAt(a, |a|);
    SlashAt(s, |a|);
  }

  /** The first slash is the one with no slash before it. */
  lemma {:induction false} SlashAt(s: string, i: nat)
    requires i <= |s| && '/' !in s[..i] && (i < |s| ==> s[i] == '/')
    ensures FirstSlash(s) == i
  {
    if i > 0 {
      assert s[..i][0] == s[0];
      assert s[1..][..i - 1] == s[..i][1..];
      SlashAt(s[1..], i - 1);
    }
  }

  /** Splitting what was joined gives the parts back. */
  lemma {:induction false} SplitOfJoin(parts: seq<string>)
    requires |parts| > 0 && ProperParts(parts)
    ensures Split(Join(parts)) == parts && BeforeEmpty(parts) == parts
  {
    var first, rest := parts[0], parts[1..];
    assert parts == [first] + rest;
    if rest == [] {
      FirstSlashOf(first, []);
    } else {
      SplitOfJoin(rest);
      FirstSlashOf(first, Join(rest));
      var s := Join(parts);
      assert s == first + "/" + Join(rest);
      assert s[..|first|] == first && s[|first| + 1..] == Join(rest);
    }
  }

  /** Splitting is cutting at every slash and nowhere else: the components hold no
      slash, and joined with slashes they are the string. */
  lemma {:induction false} JoinOfSplit(s: string)
    ensures Join(Split(s)) == s && forall i :: 0 <= i < |Split(s)| ==> '/' !in Split(s)[i]
    decreases |s|
  {
    var e := FirstSlash(s);
    assert s[..|s|] == s;
    if e < |s| {
      JoinOfSplit(s[e + 1..]);
      var rest := Split(s[e + 1..]);
      assert Split(s)[1..] == rest;
      assert s == s[..e] + "/" + s[e + 1..];
    }
  }

  /** The components that count: as many as come before the first empty one. */
  lemma {:induction false} BeforeEmptyIs(parts: seq<string>)
    ensures var r := BeforeEmpty(parts);
      && r <= parts && (forall i :: 0 <= i < |r| ==> r[i] != "") && (|r| < |parts| ==> parts[|r|] == "")
  {
    if parts != [] && parts[0] != [] {
      BeforeEmptyIs(parts[1..]);
      assert parts == [parts[0]] + parts[1..];
    }
  }

  // -------------------------------------------------------------- parser

  /** Reads one component from `pos` into a zeroed buffer and steps over the
      slash behind it. `None` for an empty component. */
  method GetPart(path: string, pos: nat) returns (part: Option<string>, next: nat)
    requires pos <= |path| && |path| - pos < MAX_PATH && NUL !in path
    ensures part == HeadPart(path[pos..])
    ensures pos <= next <= |path| && path[next..] == Behind(path[pos..])
  {
    hide FirstSlash;
    var buf := new char[MAX_PATH](_ => NUL);
    next := pos;
    var i := 0;
    while next < |path| && path[next] != '/'
      invariant 0 <= i && next == pos + i && next <= |path|
      invariant '/' !in path[pos..next]
      invariant buf[..i] == path[pos..next]
      invariant forall k :: i <= k < MAX_PATH ==> buf[k] == NUL
    {
      buf[i] := path[next];
      assert path[pos..next + 1] == path[pos..next] + [path[next]];
      next := next + 1;
      i := i + 1;
    }
    ghost var rest := path[pos..];
    assert rest[..i] == path[pos..next];
    SlashAt(rest, i);
    assert buf[i] == NUL;
    if next < |path| {
      next := next + 1;
      assert rest[i + 1..] == path[next..];
    }
    part := if i == 0 then None else Some(buf[..i]);
  }

  /** The first component, unless it is empty. */
  ghost function HeadPart(s: string): Option<string> {
    var e := FirstSlash(s);
    if e == 0 then None else Some(s[..e])
  }

  /** Reads one component into a new node and links it behind the last one;
      null for an empty component. */
  method ParsePart(last: PathPart?, path: string, pos: nat,
                   ghost first: PathPart?, ghost nodes: seq<PathPart>, ghost parts: seq<string>)
    returns (part: PathPart?, next: nat, ghost head: PathPart?, ghost more: seq<PathPart>)
    requires pos <= |path| && |path| - pos < MAX_PATH && NUL !in path
    requires IsPath(first, nodes, parts) && last == (if nodes == [] then null else nodes[|nodes| - 1])
    modifies if last == null then {} else {last}
    ensures pos <= next <= |path| && path[next..] == Behind(path[pos..])
    ensures match HeadPart(path[pos..])
      case None => part == null && head == first && more == nodes && IsPath(head, more, parts)
      case Some(s) => part != null && fresh(part) && more == nodes + [part] && IsPath(head, more, parts + [s])
    ensures nodes != [] ==> head == first
  {
    hide HeadPart, Behind;
    var text;
    text, next := GetPart(path, pos);
    head, more := first, nodes;
    if text.None? {
      return null, next, head, more;
    }
    part := new PathPart(text.value);
    if last != null {
      last.next := part;
    }
    more := nodes + [part];
    head := if nodes == [] then part else first;
  }

  /** Parses a path: rejected when too long or without a drive; otherwise the
      drive and the linked components before the first empty one, each short enough
      for its buffer and its terminator. */
  method Parse(path: string) returns (root: PathRoot?, ghost nodes: seq<PathPart>)
    requires NUL !in path
    ensures root != null <==> 3 <= |path| <= 108 && '0' <= path[0] <= '9' && path[1] == ':' && path[2] == '/'
    ensures root != null ==>
      var parts := BeforeEmpty(Split(path[3..]));
      && fresh(root) && fresh(nodes) && root.drive == path[0] as int - '0' as int && IsPath(root.first, nodes, parts)
      && forall i :: 0 <= i < |parts| ==> 0 < |parts[i]| < MAX_PATH
  {
    nodes := [];
    if |path| > MAX_PATH {
      return null, nodes;
    }
    if !ValidFormat(path) {
      return null, nodes;
    }
    hide HeadPart, Behind, Collected, IsPath;
    root := new PathRoot(DigitValue(path[0]));
    ghost var parts: seq<string>, rest, first: PathPart? := [], path[3..], null;
    NoParts();
    CollectedNone(rest);
    var part, pos;
    part, pos, first, nodes := ParsePart(null, path, 3, first, nodes, parts);
    if part == null {
      CollectedAll(parts, rest, path[3..]);
      return;
    }
    CollectedStep(parts, rest, path[3..]);
    parts, rest := parts + [HeadPart(rest).value], Behind(rest);
    root.first := part;
    FirstNode(first, nodes, parts);
    while part != null
      invariant 3 <= pos <= |path| && Collected(parts, rest, path[3..])
      invariant fresh(nodes) && IsPath(first, nodes, parts) && root.first == first && fresh(root)
      invariant nodes != [] && (part != null ==> part == nodes[|nodes| - 1] && path[pos..] == rest)
      invariant part == null ==> HeadPart(rest).None?
      decreases |rest| + (if part == null then 0 else 1)
    {
      part, pos, first, nodes := ParsePart(part, path, pos, first, nodes, parts);
      if part != null {
        CollectedStep(parts, rest, path[3..]);
        parts, rest := parts + [HeadPart(rest).value], Behind(rest);
      }
    }
    CollectedAll(parts, rest, path[3..]);
  }

  lemma NoParts()
    ensures IsPath(null, [], [])
  {
  }

  lemma FirstNode(first: PathPart?, nodes: seq<PathPart>, parts: seq<string>)
    requires IsPath(first, nodes, parts) && nodes != []
    ensures first == nodes[0]
  {
  }

  /** The parts read so far, with those of the rest, are those of the whole. */
  ghost predicate Collected(parts: seq<string>, rest: string, whole: string) {
    && parts + BeforeEmpty(Split(rest)) == BeforeEmpty(Split(whole))
    && |rest| < MAX_PATH && forall i :: 0 <= i < |parts| ==> 0 < |parts[i]| < MAX_PATH
  }

  lemma CollectedNone(s: string)
    requires |s| < MAX_PATH
    ensures Collected([], s, s)
  {
    assert [] + BeforeEmpty(Split(s)) == BeforeEmpty(Split(s));
  }

  lemma CollectedStep(parts: seq<string>, rest: string, whole: string)
    requires Collected(parts, rest, whole) && HeadPart(rest).Some?
    ensures Collected(parts + [HeadPart(rest).value], Behind(rest), whole) && |Behind(rest)| < |rest|
  {
    hide Split, BeforeEmpty, FirstSlash, HeadPart, Behind;
    UnfoldParts(rest);
    var more := BeforeEmpty(Split(Behind(rest)));
    assert parts + [HeadPart(rest).value] + more == parts + ([HeadPart(rest).value] + more);
  }

  lemma CollectedAll(parts: seq<string>, rest: string, whole: string)
    requires Collected(parts, rest, whole) && HeadPart(rest).None?
    ensures parts == BeforeEmpty(Split(whole)) && forall i :: 0 <= i < |parts| ==> 0 < |parts[i]| < MAX_PATH
  {
    UnfoldParts(rest);
    assert parts + [] == parts;
  }

  /** What is left after the first component and its slash. */
  ghost function Behind(s: string): string {
    var e := FirstSlash(s);
    if e < |s| then s[e + 1..] else []
  }

  lemma UnfoldParts(s: string)
    ensures BeforeEmpty(Split(s)) == match HeadPart(s)
      case None => []
      case Some(part) => [part] + BeforeEmpty(Split(Behind(s)))
    ensures HeadPart(s).Some? ==> 0 < |HeadPart(s).value| <= |s| && |Behind(s)| < |s|
  {
    var e := FirstSlash(s);
    assert s[..|s|] == s;
    if e == |s| {
      assert Split(s) == [s] && Split([]) == [[]];
      assert BeforeEmpty([[]]) == [];
    } else {
      assert Split(s)[0] == s[..e] && Split(s)[1..] == Split(s[e + 1..]);
    }
  }

  /** Parsing the printed form of a path gives the path back. */
  method PrintThenParse(drive: char, parts: seq<string>) returns (root: PathRoot?, ghost nodes: seq<PathPart>)
    requires IsDigit(drive) && |parts| > 0 && ProperParts(parts)
    requires |Join(parts)| + 3 <= MAX_PATH && NUL !in Join(parts)
    ensures root != null && root.drive == drive as int - '0' as int && IsPath(root.first, nodes, parts)
  {
    var path := [drive, ':', '/'] + Join(parts);
    SplitOfJoin(parts);
    assert path[3..] == Join(parts);
    root, nodes := Parse(path);
  }
}

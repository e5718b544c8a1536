/**
 Cluster chains in a FAT16 table.

 The table is a sequence of 16-bit entries; entry `x` holds the cluster that
 follows cluster `x`, 0 when `x` is free, or an end mark. Erasing follows links up
 to 0xFFFF, reading even past it, and the walk that precedes growth stops at any
 value from 0xFFF8 up: a chain may end in one cluster, numbered from 0xFFF8 up, that
 growth does not see. The functions here are the effect of the driver's operations on
 the table; the lemmas say what those effects do to the set of live chains.
 */
module FatChains {
  const FREE := 0
  const EOC := 0xFFFF
  /** The growth walk stops at any value from here up. */
  const END_MARK := 0xFFF8
  const FIRST_CANDIDATE := 3

  type Entry = e: int | 0 <= e < 0x10000

  // ------------------------------------------------------------- chains

  /** What erasing follows from the head on, and reading before it passes the end. */
  ghost predicate IsChain(f: seq<Entry>, c: seq<int>) {
    && |c| > 0
    && (forall i :: 0 <= i < |c| ==> 2 <= c[i] < |f|)
    && (forall i {:trigger f[c[i]]} :: 0 <= i < |c| - 1 ==> f[c[i]] == c[i + 1])
    && f[c[|c| - 1]] == EOC
    && LinksProper(c)
  }

  ghost predicate InTable(f: seq<Entry>, c: seq<int>) {
    forall i :: 0 <= i < |c| ==> 0 <= c[i] < |f|
  }

  /** No link is 0xFFFF, and only the last may be 0xFFF8 or more. */
  ghost predicate LinksProper(c: seq<int>) {
    forall i :: 1 <= i < |c| ==> c[i] < if i == |c| - 1 then EOC else END_MARK
  }

  /** The part of a chain the growth walk sees. */
  ghost function Stem(c: seq<int>): (s: seq<int>)
    ensures s <= c && (|c| > 0 ==> |s| > 0 && s[0] == c[0])
  {
    if |c| > 1 && c[|c| - 1] >= END_MARK then c[..|c| - 1] else c
  }

  function Last(c: seq<int>): int
    requires |c| > 0
  {
    c[|c| - 1]
  }

  ghost predicate Disjoint(c: seq<int>, d: seq<int>) {
    forall x :: x in c ==> x !in d
  }

  ghost predicate Distinct(c: seq<int>) {
    forall i, j :: 0 <= i < j < |c| ==> c[i] != c[j]
  }

  /** A forest of live chains. */
  ghost predicate Forest(f: seq<Entry>, chains: set<seq<int>>) {
    && (forall c :: c in chains ==> IsChain(f, c))
    && (forall c, d :: c in chains && d in chains && c != d ==> Disjoint(c, d))
  }

  ghost predicate InSome(chains: set<seq<int>>, x: int) {
    exists c :: c in chains && x in c
  }

  /** A walk that reaches an end mark never met a cluster twice. */
  lemma ChainIsAcyclic(f: seq<Entry>, c: seq<int>)
    requires IsChain(f, c)
    ensures Distinct(c)
  {
    forall i, j | 0 <= i < j < |c|
      ensures c[i] != c[j]
    {
      NoRepeat(f, c, i, j);
    }
  }

  lemma {:induction false} NoRepeat(f: seq<Entry>, c: seq<int>, i: nat, j: nat)
    requires IsChain(f, c) && i < j < |c|
    ensures c[i] != c[j]
    decreases |c| - j
  {
    if c[i] == c[j] {
      assert f[c[i]] == c[i + 1];
      if j + 1 < |c| {
        assert f[c[j]] == c[j + 1];
        NoRepeat(f, c, i + 1, j + 1);
      }
    }
  }

  /** The table and the head determine the chain. */
  lemma {:induction false} ChainIsDetermined(f: seq<Entry>, c: seq<int>, d: seq<int>)
    requires IsChain(f, c) && IsChain(f, d) && c[0] == d[0]
    ensures c == d
  {
    assert |c| > 1 ==> f[c[0]] == c[1];
    assert |d| > 1 ==> f[d[0]] == d[1];
    if |c| > 1 && |d| > 1 {
      assert c == [c[0]] + c[1..] && d == [d[0]] + d[1..];
      ChainIsDetermined(f, c[1..], d[1..]);
    }
  }

  lemma ChainIsUsed(f: seq<Entry>, c: seq<int>, x: int)
    requires IsChain(f, c) && x in c
    ensures 2 <= x < |f| && f[x] != FREE
  {
    var i :| 0 <= i < |c| && c[i] == x;
    if i + 1 < |c| {
      assert f[c[i]] == c[i + 1];
    }
  }

  lemma ChainBounds(f: seq<Entry>, c: seq<int>)
    requires IsChain(f, c)
    ensures |c| > 0 && InTable(f, c) && Last(Stem(c)) in c && 0 <= Last(Stem(c)) < |f| && f[Last(Stem(c))] != FREE
  {
    assert Last(Stem(c)) == c[|Stem(c)| - 1];
    ChainIsUsed(f, c, Last(Stem(c)));
  }

  /** A chain survives any change of the table outside its own clusters. */
  lemma ChainFrame(f: seq<Entry>, g: seq<Entry>, c: seq<int>)
    requires IsChain(f, c) && |g| == |f|
    requires forall x :: x in c ==> g[x] == f[x]
    ensures IsChain(g, c)
  {
    forall i | 0 <= i < |c| - 1
      ensures g[c[i]] == c[i + 1]
    {
      assert c[i] in c && f[c[i]] == c[i + 1];
    }
    assert c[|c| - 1] in c;
  }

  // --------------------------------------------------------- allocation

  /** The scan probes clusters 3, 4, ... and gives up after cluster `Ceiling`. */
  function Ceiling(limit: nat): nat {
    if limit < FIRST_CANDIDATE then FIRST_CANDIDATE else limit
  }

  ghost function FreeSet(f: seq<Entry>, limit: nat): set<int>
    requires Ceiling(limit) < |f|
  {
    set x | FIRST_CANDIDATE <= x <= Ceiling(limit) && f[x] == FREE
  }

  /** The lowest free cluster the scan can see, or 0. */
  ghost function FirstFree(f: seq<Entry>, limit: nat): (r: int)
    requires Ceiling(limit) < |f|
    ensures r == 0 <==> FreeSet(f, limit) == {}
    ensures r != 0 ==> r in FreeSet(f, limit) && forall x :: x in FreeSet(f, limit) ==> r <= x
  {
    FirstFreeFrom(f, limit, FIRST_CANDIDATE)
  }

  ghost function FirstFreeFrom(f: seq<Entry>, limit: nat, x: int): (r: int)
    requires Ceiling(limit) < |f| && FIRST_CANDIDATE <= x <= Ceiling(limit)
    ensures r == 0 <==> forall y :: y in FreeSet(f, limit) ==> y < x
    ensures r != 0 ==> x <= r && r in FreeSet(f, limit)
    ensures r != 0 ==> forall y :: y in FreeSet(f, limit) && x <= y ==> r <= y
    decreases Ceiling(limit) - x
  {
    if f[x] == FREE then
      assert x in FreeSet(f, limit);
      x
    else if x == Ceiling(limit) then
      0
    else
      FirstFreeFrom(f, limit, x + 1)
  }

  lemma FirstFreeBounds(f: seq<Entry>, limit: nat)
    requires Ceiling(limit) < |f|
    ensures var n := FirstFree(f, limit);
      n != 0 ==> 3 <= n < |f| && n <= Ceiling(limit) && f[n] == FREE && n in FreeSet(f, limit)
  {
  }

  /** What the allocator hands out: a 16-bit number. */
  ghost function Candidate(f: seq<Entry>, limit: nat): (n: int)
    requires Ceiling(limit) < |f|
    ensures 0 <= n < 0x10000 && n < |f|
    ensures Ceiling(limit) < 0x10000 ==> n == FirstFree(f, limit)
  {
    FirstFree(f, limit) % 0x10000
  }

  ghost function Linked(f: seq<Entry>, last: int, n: int): seq<Entry>
    requires 0 <= last < |f| && 0 <= n < |f| && n < 0x10000
  {
    f[last := n][n := EOC]
  }

  /** What the growth walk makes of a chain: it stops at any end mark. */
  ghost predicate IsWalk(f: seq<Entry>, c: seq<int>) {
    && |c| > 0
    && (forall i :: 0 <= i < |c| ==> 0 <= c[i] < |f|)
    && (forall i {:trigger f[c[i]]} :: 0 <= i < |c| - 1 ==> f[c[i]] == c[i + 1] < END_MARK)
    && f[c[|c| - 1]] >= END_MARK
  }

  lemma StemIsWalk(f: seq<Entry>, c: seq<int>)
    requires IsChain(f, c)
    ensures IsWalk(f, Stem(c))
  {
    var s := Stem(c);
    forall i | 0 <= i < |s| - 1
      ensures f[s[i]] == s[i + 1] && f[s[i]] < END_MARK
    {
      assert f[c[i]] == c[i + 1];
    }
    assert |s| < |c| ==> f[c[|s| - 1]] == c[|s|];
  }

  /** The chain after a free cluster `n` was linked behind what growth sees. */
  ghost function LinkedChain(c: seq<int>, n: int): seq<int> {
    if n == EOC then Stem(c) else Stem(c) + [n]
  }

  /** Linking a free cluster, walker by walker. The chain ends in the new cluster
      exactly if that is not the end mark 0xFFFF itself; the next growth starts
      behind the new cluster exactly if its number is below 0xFFF8, else behind the
      same cluster as before. */
  lemma LinkedIsChain(f: seq<Entry>, c: seq<int>, n: int)
    requires IsChain(f, c) && 2 <= n < |f| && n < 0x10000 && f[n] == FREE
    ensures var g := Linked(f, Last(Stem(c)), n);
      && IsChain(g, LinkedChain(c, n))
      && (IsChain(g, Stem(c) + [n]) <==> n != EOC)
      && Stem(LinkedChain(c, n)) == (if n < END_MARK then Stem(c) + [n] else Stem(c))
      && IsWalk(g, Stem(LinkedChain(c, n)))
  {
    var s, g, d := Stem(c), Linked(f, Last(Stem(c)), n), LinkedChain(c, n);
    ChainIsAcyclic(f, c);
    forall x | x in c
      ensures x != n
    {
      ChainIsUsed(f, c, x);
    }
    forall i | 0 <= i < |d| - 1
      ensures g[d[i]] == d[i + 1]
    {
      assert s[i] == c[i] && c[i] in c;
      if i + 1 < |s| {
        assert f[c[i]] == c[i + 1];
      }
    }
    assert Last(s) == c[|s| - 1] && c[|s| - 1] in c;
    assert IsChain(g, d);
    assert n == EOC ==> g[Last(s)] == EOC && !LinksProper(s + [n]) by {
      assert (s + [n])[|s|] == n;
    }
    StemIsWalk(g, d);
  }

  /** Clusters in use that belong to no live chain. */
  ghost function Unowned(f: seq<Entry>, chains: set<seq<int>>): set<int> {
    set x | 0 <= x < |f| && f[x] != FREE && !InSome(chains, x)
  }

  /** Clusters a change takes from the free ones. */
  ghost function TakenBy(f: seq<Entry>, g: seq<Entry>): set<int> {
    set x | 0 <= x < |f| && 0 <= x < |g| && f[x] == FREE && g[x] != FREE
  }

  /** Clusters that chain `c` had or the change took, and chain `d` does not hold. */
  ghost function Lost(f: seq<Entry>, g: seq<Entry>, c: seq<int>, d: seq<int>): set<int> {
    set x | 0 <= x < |f| && x !in d && (x in c || x in TakenBy(f, g))
  }

  /** Replacing chain `c` by `d`, made of clusters of `c` and clusters that were
      free: the forest stands, and what is lost joins the unowned clusters. An
      empty `c` stands for a new chain. */
  lemma ForestReplace(f: seq<Entry>, g: seq<Entry>, chains: set<seq<int>>, c: seq<int>, d: seq<int>)
    requires Forest(f, chains) && (c == [] || c in chains) && |g| == |f|
    requires IsChain(g, d)
    requires forall x :: x in d && x !in c ==> 0 <= x < |f| && f[x] == FREE
    requires forall x :: 0 <= x < |f| && x !in d && f[x] != FREE ==> g[x] == f[x]
    ensures Forest(g, chains - {c} + {d})
    ensures Unowned(g, chains - {c} + {d}) == Unowned(f, chains) + Lost(f, g, c, d)
  {
    var after := chains - {c} + {d};
    forall e | e in chains && e != c
      ensures Disjoint(e, d) && Disjoint(d, e) && IsChain(g, e)
    {
      forall x | x in e
        ensures x !in d && g[x] == f[x]
      {
        ChainIsUsed(f, e, x);
        assert c != [] ==> Disjoint(e, c);
      }
      ChainFrame(f, g, e);
    }
    forall x | 0 <= x < |f|
      ensures x in Unowned(g, after) <==> x in Unowned(f, chains) || x in Lost(f, g, c, d)
    {
      OwnershipAt(f, g, chains, c, d, x);
    }
  }

  lemma OwnershipAt(f: seq<Entry>, g: seq<Entry>, chains: set<seq<int>>, c: seq<int>, d: seq<int>, x: int)
    requires Forest(f, chains) && (c == [] || c in chains) && |g| == |f| && 0 <= x < |f|
    requires forall x :: x in d && x !in c ==> 0 <= x < |f| && f[x] == FREE
    requires forall x :: 0 <= x < |f| && x !in d && f[x] != FREE ==> g[x] == f[x]
    ensures x in Unowned(g, chains - {c} + {d}) <==> x in Unowned(f, chains) || x in Lost(f, g, c, d)
  {
    var after := chains - {c} + {d};
    if x in d {
      assert InSome(after, x);
      if x in c {
        assert InSome(chains, x);
      }
    } else {
      assert InSome(after, x) <==> exists e :: e in chains && e != c && x in e;
      if x in c {
        ChainIsUsed(f, c, x);
        assert !InSome(after, x) by {
          assert forall e :: e in chains && e != c ==> Disjoint(c, e);
        }
      } else {
        assert InSome(after, x) <==> InSome(chains, x);
        if InSome(chains, x) {
          var e :| e in chains && x in e;
          ChainIsUsed(f, e, x);
        }
      }
    }
  }

  /** What one link takes and changes. */
  lemma LinkParts(f: seq<Entry>, c: seq<int>, n: int)
    requires IsChain(f, c) && 2 <= n < |f| && n < 0x10000 && f[n] == FREE
    ensures n !in c && 0 <= Last(Stem(c)) < |f|
    ensures var g := Linked(f, Last(Stem(c)), n); var d := LinkedChain(c, n);
      && TakenBy(f, g) == {n} && g[n] != FREE && Last(Stem(c)) in d
      && (forall x :: x in d ==> x in c || x == n) && (forall x :: x in c && x !in d ==> x !in Stem(c))
      && (forall x :: 0 <= x < |f| && x != n && x != Last(Stem(c)) ==> g[x] == f[x])
  {
    hide LinksProper;
    ChainBounds(f, c);
    if n in c {
      ChainIsUsed(f, c, n);
    }
    var s, g, d := Stem(c), Linked(f, Last(Stem(c)), n), LinkedChain(c, n);
    assert d[|s| - 1] == Last(s);
    forall x
      ensures x in TakenBy(f, g) <==> x == n
    {
    }
    assert forall x :: x in s ==> x in c && x in d;
  }

  /** Clusters below the end marks that the scan can hand out. */
  ghost function LowFree(f: seq<Entry>, limit: nat): set<int>
    requires Ceiling(limit) < |f|
  {
    set x | x in FreeSet(f, limit) && x < END_MARK
  }

  /** The scan settles on a cluster from 0xFFF8 up exactly when some cluster is free
      and none below is. */
  lemma WildCandidateIff(f: seq<Entry>, limit: nat)
    requires Ceiling(limit) < |f|
    ensures FirstFree(f, limit) >= END_MARK <==> LowFree(f, limit) == {} && FreeSet(f, limit) != {}
  {
    hide FirstFree;
    var n := FirstFree(f, limit);
    assert n != 0 && n < END_MARK ==> n in LowFree(f, limit);
  }

  /** The highest number probed that 16 bits hold. */
  function Cap(limit: nat): nat {
    if limit < 0x10000 then limit else 0xFFFF
  }

  /** The next `k` clusters found fit in 16 bits: at most 65536 numbers are probed,
      or that many that fit are free. */
  ghost predicate Tame(f: seq<Entry>, limit: nat, k: int)
    requires Ceiling(limit) < |f|
  {
    limit <= 0x10000 || k <= |FreeSet(f, Cap(limit))|
  }

  /** A scan over fewer numbers finds the same cluster, or none. */
  lemma ScanLess(f: seq<Entry>, limit: nat, less: nat)
    requires Ceiling(limit) < |f| && 3 <= less <= limit
    ensures FirstFree(f, less) == if FirstFree(f, limit) <= less then FirstFree(f, limit) else 0
  {
    hide FirstFree;
    var n := FirstFree(f, limit);
    assert forall x :: x in FreeSet(f, less) ==> x in FreeSet(f, limit);
    assert n != 0 && n <= less ==> n in FreeSet(f, less);
  }

  /** Then what is handed out is the lowest free cluster among those that fit. */
  lemma TameCandidate(f: seq<Entry>, limit: nat)
    requires Ceiling(limit) < |f| && Tame(f, limit, 1)
    ensures Candidate(f, limit) == FirstFree(f, Cap(limit))
  {
    hide FirstFree, FreeSet;
    FirstFreeBounds(f, limit);
    if limit >= 0x10000 {
      ScanLess(f, limit, Cap(limit));
      if limit > 0x10000 {
        assert FreeSet(f, Cap(limit)) != {};
      }
    }
  }

  // ------------------------------------------------------------- growth

  datatype Growth = Growth(fat: seq<Entry>, chain: seq<int>)

  /** The lowest free cluster linked to chain `c`, if there is one. */
  ghost function Extended(f: seq<Entry>, c: seq<int>, limit: nat): (r: Growth)
    requires Ceiling(limit) < |f| && limit < 0x10000
    requires |c| > 0 && InTable(f, c)
    ensures |r.fat| == |f| && |r.chain| > 0 && InTable(f, r.chain)
  {
    var n := FirstFree(f, limit);
    if n == 0 then Growth(f, c) else Growth(Linked(f, Last(Stem(c)), n), LinkedChain(c, n))
  }

  /** `k` such steps; once the disk is full the rest change nothing. */
  ghost function Grow(f: seq<Entry>, c: seq<int>, limit: nat, k: nat): Growth
    requires Ceiling(limit) < |f| && limit < 0x10000
    requires |c| > 0 && InTable(f, c)
    decreases k
  {
    if k == 0 then Growth(f, c)
    else var r := Extended(f, c, limit); Grow(r.fat, r.chain, limit, k - 1)
  }

  /** How many clusters `k` steps hand out. */
  ghost function Handed(f: seq<Entry>, limit: nat, k: nat): nat
    requires Ceiling(limit) < |f|
  {
    if k <= |FreeSet(f, limit)| then k else |FreeSet(f, limit)|
  }

  /** Handing out `h` clusters, more than `low` of them, ends in one from 0xFFF8 up
      that is linked: not in 0xFFFF, which always comes last. */
  ghost predicate WildEnd(f: seq<Entry>, limit: nat, h: nat, low: nat)
    requires Ceiling(limit) < |f|
  {
    h > low && !(EOC in FreeSet(f, limit) && h == |FreeSet(f, limit)|)
  }

  /** The length a chain has after `k` steps, by counting free clusters: those
      below the end marks lengthen it; of all others only the last one handed out
      is linked, in place of one that was before. */
  ghost function GrownLength(f: seq<Entry>, c: seq<int>, limit: nat, k: nat): nat
    requires Ceiling(limit) < |f|
  {
    var h, low := Handed(f, limit, k), |LowFree(f, limit)|;
    if h == 0 then |c|
    else |Stem(c)| + (if h <= low then h else low) + if WildEnd(f, limit, h, low) then 1 else 0
  }

  ghost predicate Grows(f: seq<Entry>, c: seq<int>, limit: nat, k: nat, r: Growth)
    requires Ceiling(limit) < |f| && |c| > 0
  {
    GrowsChain(f, c, limit, k, r) && GrowsTable(f, c, limit, k, r)
  }

  /** The chain keeps its stem and has the length the counts give. */
  ghost predicate GrowsChain(f: seq<Entry>, c: seq<int>, limit: nat, k: nat, r: Growth)
    requires Ceiling(limit) < |f|
  {
    && IsChain(r.fat, r.chain) && Stem(c) <= Stem(r.chain) && |r.chain| == GrownLength(f, c, limit, k)
    && (Handed(f, limit, k) == 0 ==> r == Growth(f, c))
  }

  /** The clusters taken were free, the chain is made of old and taken ones, and
      nothing but their entries and the link behind the stem changed. */
  ghost predicate GrowsTable(f: seq<Entry>, c: seq<int>, limit: nat, k: nat, r: Growth)
    requires Ceiling(limit) < |f| && |c| > 0
  {
    && |r.fat| == |f|
    && TakenBy(f, r.fat) <= FreeSet(f, limit) && |TakenBy(f, r.fat)| == Handed(f, limit, k)
    && (forall x :: x in r.chain ==> x in c || x in TakenBy(f, r.fat))
    && (forall x :: 0 <= x < |f| && x !in TakenBy(f, r.fat) && x != Last(Stem(c)) ==> r.fat[x] == f[x])
  }

  lemma FreeSetAfterLink(f: seq<Entry>, c: seq<int>, limit: nat)
    requires Ceiling(limit) < |f| && limit < 0x10000 && IsChain(f, c)
    requires FirstFree(f, limit) != 0
    ensures var n := FirstFree(f, limit); var g := Extended(f, c, limit).fat;
      && FreeSet(g, limit) == FreeSet(f, limit) - {n} && |FreeSet(g, limit)| == |FreeSet(f, limit)| - 1
      && LowFree(g, limit) == LowFree(f, limit) - {n}
      && |LowFree(g, limit)| == |LowFree(f, limit)| - (if n < END_MARK then 1 else 0)
      && (n >= END_MARK ==> LowFree(f, limit) == {})
  {
    var n := FirstFree(f, limit);
    var g := Extended(f, c, limit).fat;
    var last := Last(Stem(c));
    assert last == c[|Stem(c)| - 1] && last in c;
    ChainIsUsed(f, c, last);
    assert FreeSet(g, limit) == FreeSet(f, limit) - {n};
    assert LowFree(g, limit) == LowFree(f, limit) - {n};
  }

  lemma ExtendedIsChain(f: seq<Entry>, c: seq<int>, limit: nat)
    requires Ceiling(limit) < |f| && limit < 0x10000 && IsChain(f, c)
    ensures var r := Extended(f, c, limit); IsChain(r.fat, r.chain) && r.chain[0] == c[0]
  {
    if FirstFree(f, limit) != 0 {
      LinkedIsChain(f, c, FirstFree(f, limit));
    }
  }

  /** The counts after one link fit the counts before it. */
  lemma GrownLengthStep(f: seq<Entry>, c: seq<int>, limit: nat, k: nat)
    requires Ceiling(limit) < |f| && limit < 0x10000 && IsChain(f, c)
    requires k > 0 && FirstFree(f, limit) != 0
    ensures var r := Extended(f, c, limit);
      && Handed(f, limit, k) == Handed(r.fat, limit, k - 1) + 1
      && GrownLength(f, c, limit, k) == GrownLength(r.fat, r.chain, limit, k - 1)
  {
    hide FirstFree, FreeSet, LowFree, IsChain, LinksProper, Linked, Stem;
    ChainBounds(f, c);
    var n, r := FirstFree(f, limit), Extended(f, c, limit);
    FirstFreeBounds(f, limit);
    FreeSetAfterLink(f, c, limit);
    LinkedIsChain(f, c, n);
    EndComesLast(f, limit);
    var h, low := Handed(f, limit, k), |LowFree(f, limit)|;
    assert EOC in FreeSet(r.fat, limit) <==> EOC in FreeSet(f, limit) && n != EOC;
    if n < END_MARK {
      assert |Stem(r.chain)| == |Stem(c)| + 1 && |r.chain| == |Stem(c)| + 1;
      assert WildEnd(f, limit, h, low) <==> h > 1 && WildEnd(r.fat, limit, h - 1, low - 1);
    } else {
      assert low == 0 && |Stem(r.chain)| == |Stem(c)|;
      assert h == 1 ==> (WildEnd(f, limit, h, low) <==> n != EOC);
      assert h > 1 ==> (WildEnd(f, limit, h, low) <==> WildEnd(r.fat, limit, h - 1, 0));
    }
  }

  /** 0xFFFF is handed out only when nothing else is free. */
  lemma EndComesLast(f: seq<Entry>, limit: nat)
    requires Ceiling(limit) < |f| && limit < 0x10000
    ensures FirstFree(f, limit) == EOC ==> FreeSet(f, limit) == {EOC} && |FreeSet(f, limit)| == 1
    ensures FirstFree(f, limit) != 0 && FirstFree(f, limit) != EOC && EOC in FreeSet(f, limit) ==>
      |FreeSet(f, limit)| > 1
    ensures FirstFree(f, limit) != 0 ==> FirstFree(f, limit) in FreeSet(f, limit) && |FreeSet(f, limit)| >= 1
    ensures |LowFree(f, limit)| <= |FreeSet(f, limit)|
  {
    hide FirstFree;
    var free, n := FreeSet(f, limit), FirstFree(f, limit);
    if n == EOC {
      assert free == {EOC};
    } else if n != 0 && EOC in free {
      assert {n, EOC} <= free && |{n, EOC}| == 2;
      SubsetSize({n, EOC}, free);
    } else if n != 0 {
      SubsetSize({n}, free);
    }
    SubsetSize(LowFree(f, limit), free);
  }

  lemma SubsetSize(a: set<int>, b: set<int>)
    requires a <= b
    ensures |a| <= |b|
  {
    assert b == a + (b - a);
  }

  /** One link followed by the growth of the new chain is one growth. */
  lemma GrowsCompose(f: seq<Entry>, c: seq<int>, limit: nat, k: nat, r: Growth)
    requires Ceiling(limit) < |f| && limit < 0x10000 && IsChain(f, c)
    requires k > 0 && FirstFree(f, limit) != 0
    requires var e := Extended(f, c, limit); Grows(e.fat, e.chain, limit, k - 1, r)
    ensures Grows(f, c, limit, k, r)
  {
    ChainBounds(f, c);
    hide GrowsTable, IsChain, FirstFree, FreeSet, LowFree, GrownLength, Handed, Linked, Stem;
    LinkFirst(f, c, limit);
    GrownLengthStep(f, c, limit, k);
    ComposeTable(f, c, limit, k, r);
  }

  lemma ComposeTable(f: seq<Entry>, c: seq<int>, limit: nat, k: nat, r: Growth)
    requires Ceiling(limit) < |f| && limit < 0x10000 && IsChain(f, c) && InTable(f, c)
    requires k > 0 && FirstFree(f, limit) != 0
    requires var e := Extended(f, c, limit); Grows(e.fat, e.chain, limit, k - 1, r)
    ensures GrowsTable(f, c, limit, k, r)
  {
    hide *;
    LinkFirst(f, c, limit);
    TakenCompose(f, c, limit, k, r);
    FreeSetAfterLink(f, c, limit);
    GrownLengthStep(f, c, limit, k);
    FirstFreeBounds(f, limit);
    var n, e := FirstFree(f, limit), Extended(f, c, limit);
    TableFacts(e.fat, e.chain, limit, k - 1, r);
    ComposeFrames(f, e.fat, r.fat, TakenBy(f, r.fat), TakenBy(e.fat, r.fat), n, Last(Stem(c)), Last(Stem(e.chain)),
                  c, e.chain, r.chain);
    IsGrowsTable(f, c, limit, k, r);
  }

  lemma TableFacts(f: seq<Entry>, c: seq<int>, limit: nat, k: nat, r: Growth)
    requires Ceiling(limit) < |f| && |c| > 0 && Grows(f, c, limit, k, r)
    ensures |r.fat| == |f|
    ensures TakenBy(f, r.fat) <= FreeSet(f, limit) && |TakenBy(f, r.fat)| == Handed(f, limit, k)
    ensures forall x :: x in r.chain ==> x in c || x in TakenBy(f, r.fat)
    ensures forall x :: 0 <= x < |f| && x !in TakenBy(f, r.fat) && x != Last(Stem(c)) ==> r.fat[x] == f[x]
  {
  }

  lemma IsGrowsTable(f: seq<Entry>, c: seq<int>, limit: nat, k: nat, r: Growth)
    requires Ceiling(limit) < |f| && |c| > 0 && |r.fat| == |f|
    requires TakenBy(f, r.fat) <= FreeSet(f, limit) && |TakenBy(f, r.fat)| == Handed(f, limit, k)
    requires forall x :: x in r.chain ==> x in c || x in TakenBy(f, r.fat)
    requires forall x :: 0 <= x < |f| && x !in TakenBy(f, r.fat) && x != Last(Stem(c)) ==> r.fat[x] == f[x]
    ensures GrowsTable(f, c, limit, k, r)
  {
  }

  /** Two changes one after the other: what they take, change and chain up. */
  lemma ComposeFrames(f: seq<Entry>, g: seq<Entry>, h: seq<Entry>, taken: set<int>, late: set<int>, n: int,
                      last: int, next: int, c: seq<int>, d: seq<int>, e: seq<int>)
    requires |g| == |f| && |h| == |f| && taken == late + {n} && n !in late && (next == n || next == last)
    requires forall x :: 0 <= x < |f| && x != n && x != last ==> g[x] == f[x]
    requires forall x :: 0 <= x < |f| && x !in late && x != next ==> h[x] == g[x]
    requires (forall x :: x in d ==> x in c || x == n) && (forall x :: x in e ==> x in d || x in late)
    ensures |taken| == |late| + 1 && (forall x :: x in e ==> x in c || x in taken)
    ensures forall x :: 0 <= x < |f| && x !in taken && x != last ==> h[x] == f[x]
  {
  }

  /** The facts about the first link of a growth. */
  lemma LinkFirst(f: seq<Entry>, c: seq<int>, limit: nat)
    requires Ceiling(limit) < |f| && limit < 0x10000 && IsChain(f, c) && FirstFree(f, limit) != 0
    ensures |c| > 0 && InTable(f, c)
    ensures var n, e := FirstFree(f, limit), Extended(f, c, limit);
      && IsChain(e.fat, e.chain) && Stem(c) <= Stem(e.chain) && n !in c && 0 <= n < |f|
      && (Last(Stem(e.chain)) == n || Last(Stem(e.chain)) == Last(Stem(c)))
      && (forall x :: x in e.chain ==> x in c || x == n)
      && (forall x :: 0 <= x < |f| && x != n && x != Last(Stem(c)) ==> e.fat[x] == f[x])
  {
    hide FirstFree, FreeSet, LinksProper, Linked;
    FirstFreeBounds(f, limit);
    LinkParts(f, c, FirstFree(f, limit));
    LinkedIsChain(f, c, FirstFree(f, limit));
  }

  /** Growth frees nothing. */
  lemma StillUsed(f: seq<Entry>, c: seq<int>, limit: nat, k: nat, r: Growth, x: int)
    requires Ceiling(limit) < |f| && |c| > 0 && Grows(f, c, limit, k, r) && 0 <= x < |f| && f[x] != FREE
    ensures r.fat[x] != FREE
  {
    hide GrownLength, Handed;
    if x == Last(Stem(c)) {
      assert Stem(c) <= r.chain && r.chain[|Stem(c)| - 1] == x;
      ChainIsUsed(r.fat, r.chain, x);
    } else {
      assert x !in TakenBy(f, r.fat);
    }
  }

  lemma TakenCompose(f: seq<Entry>, c: seq<int>, limit: nat, k: nat, r: Growth)
    requires Ceiling(limit) < |f| && limit < 0x10000 && IsChain(f, c)
    requires k > 0 && FirstFree(f, limit) != 0
    requires var e := Extended(f, c, limit); Grows(e.fat, e.chain, limit, k - 1, r)
    ensures TakenBy(f, r.fat) == TakenBy(Extended(f, c, limit).fat, r.fat) + {FirstFree(f, limit)}
    ensures FirstFree(f, limit) !in TakenBy(Extended(f, c, limit).fat, r.fat)
  {
    hide FirstFree, FreeSet, GrownLength, Handed, LinksProper, Grows;
    ChainBounds(f, c);
    var n, e := FirstFree(f, limit), Extended(f, c, limit);
    FirstFreeBounds(f, limit);
    GrowsSize(e.fat, e.chain, limit, k - 1, r);
    StillUsed(e.fat, e.chain, limit, k - 1, r, n);
    forall x | 0 <= x < |f|
      ensures x in TakenBy(f, r.fat) <==> x in TakenBy(e.fat, r.fat) || x == n
    {
    }
  }

  lemma GrowsSize(f: seq<Entry>, c: seq<int>, limit: nat, k: nat, r: Growth)
    requires Ceiling(limit) < |f| && |c| > 0 && Grows(f, c, limit, k, r)
    ensures |r.fat| == |f|
  {
  }

  /** The grown chain has the length the counts give; what it added was free;
      as many clusters were taken as asked for or as were free, whichever is less;
      nothing but their entries and the link behind the stem changed. */
  lemma {:induction false} GrowLemma(f: seq<Entry>, c: seq<int>, limit: nat, k: nat)
    requires Ceiling(limit) < |f| && limit < 0x10000 && IsChain(f, c)
    ensures Grows(f, c, limit, k, Grow(f, c, limit, k))
    decreases k
  {
    hide Grows, FirstFree;
    var n := FirstFree(f, limit);
    if k == 0 || n == 0 {
      GrowWhenFull(f, c, limit, k);
      GrowsNothing(f, c, limit, k);
    } else {
      var r := Extended(f, c, limit);
      ExtendedIsChain(f, c, limit);
      GrowLemma(r.fat, r.chain, limit, k - 1);
      GrowsCompose(f, c, limit, k, Grow(r.fat, r.chain, limit, k - 1));
    }
  }

  lemma GrowsNothing(f: seq<Entry>, c: seq<int>, limit: nat, k: nat)
    requires Ceiling(limit) < |f| && limit < 0x10000 && IsChain(f, c) && (k == 0 || FirstFree(f, limit) == 0)
    ensures Grows(f, c, limit, k, Growth(f, c))
  {
    assert TakenBy(f, f) == {};
  }

  /** With nothing to hand out or nothing asked for, growing changes nothing. */
  lemma {:induction false} GrowWhenFull(f: seq<Entry>, c: seq<int>, limit: nat, k: nat)
    requires Ceiling(limit) < |f| && limit < 0x10000 && |c| > 0 && InTable(f, c)
    ensures k == 0 || FirstFree(f, limit) == 0 ==> Grow(f, c, limit, k) == Growth(f, c)
    decreases k
  {
    if k > 0 {
      GrowWhenFull(f, c, limit, k - 1);
    }
  }

  /** Growing one chain of a forest keeps the forest and every other chain. What
      it loses, and only that, joins the unowned clusters, and every cluster it had
      or took is in the new chain or lost. */
  lemma GrowKeepsForest(f: seq<Entry>, chains: set<seq<int>>, c: seq<int>, limit: nat, k: nat)
    requires Ceiling(limit) < |f| && limit < 0x10000
    requires Forest(f, chains) && c in chains
    ensures var r := Grow(f, c, limit, k); var lost := Lost(f, r.fat, c, r.chain);
      && Forest(r.fat, chains - {c} + {r.chain})
      && Unowned(r.fat, chains - {c} + {r.chain}) == Unowned(f, chains) + lost
      && OthersKept(f, r.fat, chains, c)
      && |lost| == |c| + Handed(f, limit, k) - |r.chain|
  {
    hide FirstFree, FreeSet, LowFree, GrownLength, Grow;
    GrowLemma(f, c, limit, k);
    var r := Grow(f, c, limit, k);
    GrownParts(f, c, limit, k, r);
    ForestReplace(f, r.fat, chains, c, r.chain);
    Conserved(f, r.fat, c, r.chain);
    forall d, x | d in chains && d != c && x in d
      ensures 0 <= x < |f| && |r.fat| == |f| && r.fat[x] == f[x]
    {
      ChainIsUsed(f, d, x);
      assert Disjoint(d, c);
    }
  }

  /** The grown chain is made of old clusters and taken ones, and the table changed
      only there. */
  lemma GrownParts(f: seq<Entry>, c: seq<int>, limit: nat, k: nat, r: Growth)
    requires Ceiling(limit) < |f| && IsChain(f, c) && Grows(f, c, limit, k, r)
    ensures |r.fat| == |f| && IsChain(r.fat, r.chain) && Last(Stem(c)) in c && Last(Stem(c)) in r.chain
    ensures forall x :: x in r.chain ==> x in c || (0 <= x < |f| && x in TakenBy(f, r.fat))
    ensures forall x :: 0 <= x < |f| && f[x] != FREE && x != Last(Stem(c)) ==> r.fat[x] == f[x]
    ensures forall x :: x in TakenBy(f, r.fat) ==> x !in c
  {
    hide GrownLength, Handed;
    var s := Stem(c);
    assert s <= r.chain && r.chain[|s| - 1] == Last(s) == c[|s| - 1];
    forall x | x in TakenBy(f, r.fat)
      ensures x !in c
    {
      if x in c {
        ChainIsUsed(f, c, x);
      }
    }
  }

  /** Clusters are conserved: of those the chain had or took, the ones it does not
      hold any more are lost. */
  lemma Conserved(f: seq<Entry>, g: seq<Entry>, c: seq<int>, d: seq<int>)
    requires (c == [] || IsChain(f, c)) && IsChain(g, d) && |g| == |f|
    requires forall x :: x in d ==> x in c || (0 <= x < |f| && x in TakenBy(f, g))
    requires forall x :: x in TakenBy(f, g) ==> x !in c
    ensures |Lost(f, g, c, d)| == |c| + |TakenBy(f, g)| - |d|
  {
    var had, taken, holds := (set x | x in c), TakenBy(f, g), (set x | x in d);
    if c != [] {
      ChainIsAcyclic(f, c);
    }
    ChainIsAcyclic(g, d);
    DistinctSize(c);
    DistinctSize(d);
    assert |had + taken| == |had| + |taken| by {
      assert had !! taken;
    }
    assert holds <= had + taken;
    assert Lost(f, g, c, d) == had + taken - holds;
  }

  lemma {:induction false} DistinctSize(c: seq<int>)
    requires Distinct(c)
    ensures |set x | x in c| == |c|
  {
    if c != [] {
      var rest := c[..|c| - 1];
      DistinctSize(rest);
      assert c == rest + [Last(c)] && Last(c) !in rest;
      assert (set x | x in c) == (set x | x in rest) + {Last(c)};
    }
  }

  /** A chain that does not end from 0xFFF8 up, growing into clusters below, loses
      nothing and grows by every cluster handed out. */
  lemma LowGrowth(f: seq<Entry>, c: seq<int>, limit: nat, k: nat)
    requires Ceiling(limit) < |f| && IsChain(f, c) && Stem(c) == c
    requires limit < END_MARK || k <= |LowFree(f, limit)|
    ensures GrownLength(f, c, limit, k) == |c| + Handed(f, limit, k)
  {
    if limit < END_MARK {
      assert LowFree(f, limit) == FreeSet(f, limit);
    }
  }

  /** Every link of every chain but `c` is what it was. */
  ghost predicate OthersKept(f: seq<Entry>, g: seq<Entry>, chains: set<seq<int>>, c: seq<int>) {
    forall d, x :: d in chains && d != c && x in d ==> 0 <= x < |f| && |g| == |f| && g[x] == f[x]
  }

  // --------------------------------------------------------- generation

  /** A fresh chain of up to `count` clusters; `None`-like result: an empty chain. */
  ghost function Generated(f: seq<Entry>, limit: nat, count: int): (r: Growth)
    requires Ceiling(limit) < |f| && limit < 0x10000
  {
    var first := FirstFree(f, limit);
    if count <= 0 || first == 0 then Growth(f, [])
    else Grow(f[first := EOC], [first], limit, count - 1)
  }

  /** The length of a generated chain, by counting: like growth, with the first
      cluster in the chain whatever its number. */
  ghost function GeneratedLength(f: seq<Entry>, limit: nat, count: nat): nat
    requires Ceiling(limit) < |f|
  {
    var h := Handed(f, limit, count);
    var low := if LowFree(f, limit) == {} then 1 else |LowFree(f, limit)|;
    (if h <= low then h else low) + if WildEnd(f, limit, h, low) then 1 else 0
  }

  /** Length, novelty and frame of a generated chain. */
  lemma GeneratedLemma(f: seq<Entry>, limit: nat, count: int)
    requires Ceiling(limit) < |f| && limit < 0x10000
    requires count >= 1 && FirstFree(f, limit) != 0
    ensures var r := Generated(f, limit, count);
      && IsChain(r.fat, r.chain) && |r.fat| == |f|
      && r.chain[0] == FirstFree(f, limit)
      && |r.chain| == GeneratedLength(f, limit, count)
      && (forall x :: x in r.chain ==> x in TakenBy(f, r.fat))
      && TakenBy(f, r.fat) <= FreeSet(f, limit) && |TakenBy(f, r.fat)| == Handed(f, limit, count)
      && (forall x :: 0 <= x < |f| && x !in TakenBy(f, r.fat) ==> r.fat[x] == f[x])
  {
    hide FirstFree, FreeSet, LowFree, IsChain, Grow, GrownLength, GeneratedLength, Handed;
    FirstTaken(f, limit);
    var first := FirstFree(f, limit);
    var g, c := f[first := EOC], [first];
    var r := Generated(f, limit, count);
    assert r == Grow(g, c, limit, count - 1);
    GrowLemma(g, c, limit, count - 1);
    GeneratedCount(f, limit, count);
    StillUsed(g, c, limit, count - 1, r, first);
    assert Stem(c) == c;
    GeneratedTaken(f, g, r, first);
    hide TakenBy;
    assert first in TakenBy(f, r.fat);
  }

  lemma GeneratedTaken(f: seq<Entry>, g: seq<Entry>, r: Growth, first: int)
    requires 0 <= first < |f| && f[first] == FREE && g == f[first := EOC] && |r.fat| == |f| && r.fat[first] != FREE
    ensures TakenBy(f, r.fat) == TakenBy(g, r.fat) + {first} && first !in TakenBy(g, r.fat)
    ensures |TakenBy(f, r.fat)| == |TakenBy(g, r.fat)| + 1
  {
    assert TakenBy(f, r.fat) == TakenBy(g, r.fat) + {first};
  }

  /** The counts after the first cluster fit the counts before it. */
  lemma GeneratedCount(f: seq<Entry>, limit: nat, count: int)
    requires Ceiling(limit) < |f| && limit < 0x10000
    requires count >= 1 && FirstFree(f, limit) != 0
    ensures var first := FirstFree(f, limit); 0 < first < |f| && var g := f[first := EOC];
      && Handed(f, limit, count) == Handed(g, limit, count - 1) + 1
      && GeneratedLength(f, limit, count) == GrownLength(g, [first], limit, count - 1)
  {
    hide FirstFree, FreeSet, LowFree;
    FirstTaken(f, limit);
    EndComesLast(f, limit);
    var first := FirstFree(f, limit);
    var g := f[first := EOC];
    var h, low := Handed(f, limit, count), if LowFree(f, limit) == {} then 1 else |LowFree(f, limit)|;
    assert |LowFree(g, limit)| == low - 1;
    assert EOC in FreeSet(g, limit) <==> EOC in FreeSet(f, limit) && first != EOC;
    assert h > 1 ==> first != EOC;
    assert h > 1 ==> (WildEnd(f, limit, h, low) <==> WildEnd(g, limit, h - 1, low - 1));
    assert Stem([first]) == [first];
  }

  /** Marking the lowest free cluster as an end makes it a chain of its own. */
  lemma FirstTaken(f: seq<Entry>, limit: nat)
    requires Ceiling(limit) < |f| && limit < 0x10000 && FirstFree(f, limit) != 0
    ensures 0 < FirstFree(f, limit) < |f|
    ensures var first := FirstFree(f, limit); var g := f[first := EOC];
      && f[first] == FREE && first in FreeSet(f, limit) && IsChain(g, [first])
      && FreeSet(g, limit) == FreeSet(f, limit) - {first} && |FreeSet(g, limit)| == |FreeSet(f, limit)| - 1
      && LowFree(g, limit) == LowFree(f, limit) - {first}
      && |LowFree(g, limit)| == |LowFree(f, limit)| - (if first < END_MARK then 1 else 0)
      && (first < END_MARK ==> first in LowFree(f, limit)) && (first >= END_MARK ==> LowFree(f, limit) == {})
  {
    var first := FirstFree(f, limit);
    assert FreeSet(f[first := EOC], limit) == FreeSet(f, limit) - {first};
    assert LowFree(f[first := EOC], limit) == LowFree(f, limit) - {first};
  }

  // ------------------------------------------------------------ erasing

  ghost function Erased(f: seq<Entry>, c: seq<int>): (g: seq<Entry>)
    ensures |g| == |f|
  {
    seq(|f|, x requires 0 <= x < |f| => if x in c then FREE else f[x])
  }

  /** Erasing a chain removes exactly it: the rest of the forest stands and
      every cluster keeps its owner or becomes free. */
  lemma EraseKeepsForest(f: seq<Entry>, chains: set<seq<int>>, c: seq<int>)
    requires Forest(f, chains) && c in chains
    ensures Forest(Erased(f, c), chains - {c})
    ensures Unowned(Erased(f, c), chains - {c}) == Unowned(f, chains)
  {
    var g, after := Erased(f, c), chains - {c};
    forall e | e in after
      ensures IsChain(g, e)
    {
      assert Disjoint(e, c);
      forall x | x in e
        ensures g[x] == f[x]
      {
        ChainIsUsed(f, e, x);
      }
      ChainFrame(f, g, e);
    }
    forall x | 0 <= x < |f|
      ensures x in Unowned(g, after) <==> x in Unowned(f, chains)
    {
      if x in c {
        assert InSome(chains, x);
      } else if InSome(chains, x) {
        var e :| e in chains && x in e;
        assert e in after;
        assert InSome(after, x);
      }
    }
  }

  /** Erasing what was just generated restores the table exactly if every cluster
      handed out is in the chain; always so when all numbers lie below the end
      marks, even when space ran out and the chain came back short. */
  lemma EraseUndoesGenerate(f: seq<Entry>, limit: nat, count: int)
    requires Ceiling(limit) < |f| && limit < 0x10000
    requires count >= 1 && FirstFree(f, limit) != 0
    ensures var r := Generated(f, limit, count);
      Erased(r.fat, r.chain) == f <==> GeneratedLength(f, limit, count) == Handed(f, limit, count)
    ensures limit < END_MARK || count <= |LowFree(f, limit)| ==>
      GeneratedLength(f, limit, count) == Handed(f, limit, count)
  {
    hide FirstFree, FreeSet, Generated, IsChain;
    GeneratedLemma(f, limit, count);
    var r := Generated(f, limit, count);
    var taken, holds := TakenBy(f, r.fat), (set x | x in r.chain);
    ChainIsAcyclic(r.fat, r.chain);
    DistinctSize(r.chain);
    assert holds <= taken;
    if |holds| == |taken| {
      SameSize(holds, taken);
      assert Erased(r.fat, r.chain) == f;
    } else {
      assert holds != taken;
      var x :| x in taken && x !in holds;
      assert Erased(r.fat, r.chain)[x] != f[x];
    }
    LowGenerated(f, limit, count);
  }

  lemma SameSize(a: set<int>, b: set<int>)
    requires a <= b && |a| == |b|
    ensures a == b
  {
    assert b == a + (b - a) && |b - a| == 0;
  }

  lemma LowGenerated(f: seq<Entry>, limit: nat, count: int)
    requires Ceiling(limit) < |f| && count >= 1 && FirstFree(f, limit) != 0
    ensures limit < END_MARK || count <= |LowFree(f, limit)| ==>
      GeneratedLength(f, limit, count) == Handed(f, limit, count)
  {
    if limit < END_MARK {
      assert LowFree(f, limit) == FreeSet(f, limit);
    }
  }

  // ------------------------------------------------ clusters from 0xFFF8 up

  /** One link keeps the forest; it loses the cluster from 0xFFF8 up that the chain
      ended in, if any, and the new one if that is 0xFFFF. */
  lemma LinkKeepsForest(f: seq<Entry>, chains: set<seq<int>>, c: seq<int>, n: int)
    requires Forest(f, chains) && c in chains && 2 <= n < |f| && n < 0x10000 && f[n] == FREE
    ensures var g := Linked(f, Last(Stem(c)), n); var d := LinkedChain(c, n);
      && Forest(g, chains - {c} + {d})
      && Unowned(g, chains - {c} + {d}) == Unowned(f, chains) + Lost(f, g, c, d)
      && Lost(f, g, c, d) == (set x | x in c[|Stem(c)|..]) + (if n == EOC then {n} else {})
  {
    InForest(f, chains, c);
    LinkParts(f, c, n);
    LinkedIsChain(f, c, n);
    ChainIsAcyclic(f, c);
    ChainBounds(f, c);
    hide IsChain, Linked, LinksProper, TakenBy, Forest, Unowned, LinkedChain, Stem, Lost;
    var g, d := Linked(f, Last(Stem(c)), n), LinkedChain(c, n);
    forall x | 0 <= x < |f| && x !in d && f[x] != FREE
      ensures g[x] == f[x]
    {
      assert x != n && x != Last(Stem(c));
    }
    ForestReplace(f, g, chains, c, d);
    LostByLink(f, g, c, n);
  }

  lemma LostByLink(f: seq<Entry>, g: seq<Entry>, c: seq<int>, n: int)
    requires Distinct(c) && InTable(f, c) && n !in c && 0 <= n < |f| && TakenBy(f, g) == {n}
    ensures Lost(f, g, c, LinkedChain(c, n)) == (set x | x in c[|Stem(c)|..]) + (if n == EOC then {n} else {})
  {
    hide Lost, TakenBy, LinkedChain, Stem;
    forall x
      ensures x in Lost(f, g, c, LinkedChain(c, n)) <==> x in c[|Stem(c)|..] || (n == EOC && x == n)
    {
      LostAt(f, g, c, n, x);
    }
  }

  lemma LostAt(f: seq<Entry>, g: seq<Entry>, c: seq<int>, n: int, x: int)
    requires Distinct(c) && InTable(f, c) && n !in c && 0 <= n < |f| && TakenBy(f, g) == {n}
    ensures x in Lost(f, g, c, LinkedChain(c, n)) <==> x in c[|Stem(c)|..] || (n == EOC && x == n)
  {
    var s := Stem(c);
    assert c == s + c[|s|..];
    if x in c[|s|..] {
      StemApart(c, x);
    }
  }

  lemma StemApart(c: seq<int>, x: int)
    requires Distinct(c) && x in c[|Stem(c)|..]
    ensures x !in Stem(c)
  {
  }

  /** A second link behind the stem loses the cluster from 0xFFF8 up that the first
      one put there: it is in use and in no chain, and never handed out again.
      0xFFFF itself is lost at once. */
  lemma SecondLinkLoses(f: seq<Entry>, chains: set<seq<int>>, c: seq<int>, n: int, m: int)
    requires Forest(f, chains) && c in chains && END_MARK <= n < |f| && n < 0x10000 && f[n] == FREE
    requires 2 <= m < |f| && m < 0x10000 && m != n && f[m] == FREE
    ensures var g := Linked(f, Last(Stem(c)), n); var d := LinkedChain(c, n); var one := chains - {c} + {d};
      && (n in Unowned(g, one) <==> n == EOC)
      && var h := Linked(g, Last(Stem(d)), m); var e := LinkedChain(d, m); var two := one - {d} + {e};
         && Forest(h, two) && n in Unowned(h, two) && h[n] == EOC
  {
    hide Forest, IsChain, LinksProper;
    InForest(f, chains, c);
    ChainBounds(f, c);
    var s, g, d := Stem(c), Linked(f, Last(Stem(c)), n), LinkedChain(c, n);
    var one := chains - {c} + {d};
    LinkedIsChain(f, c, n);
    LinkKeepsForest(f, chains, c, n);
    FreshWhileFree(f, chains, c, n);
    ChainBounds(g, d);
    assert n !in c[|s|..];
    assert n in Unowned(g, one) <==> n == EOC;
    hide Unowned, Lost;
    LinkKeepsForest(g, one, d, m);
    assert Stem(d) == s;
    assert n != EOC ==> d[|s|..] == [n] && n in [n];
  }

  lemma InForest(f: seq<Entry>, chains: set<seq<int>>, c: seq<int>)
    requires Forest(f, chains) && c in chains
    ensures IsChain(f, c)
  {
  }

  /** A free cluster is not unowned, and lost by a link only if it is 0xFFFF. */
  lemma FreshWhileFree(f: seq<Entry>, chains: set<seq<int>>, c: seq<int>, n: int)
    requires IsChain(f, c) && 0 <= n < |f| && f[n] == FREE
    ensures n !in Unowned(f, chains) && n !in c
  {
    if n in c {
      ChainIsUsed(f, c, n);
    }
  }

  /** A table of the shipped geometry (65536 clusters probed) with two clusters left. */
  ghost function NearlyFull(): (f: seq<Entry>)
    ensures |f| == 65537
  {
    seq(65537, x => if x == END_MARK || x == END_MARK + 1 then FREE else EOC)
  }

  lemma NearlyFullFree()
    ensures Candidate(NearlyFull(), 65536) == END_MARK && IsChain(NearlyFull(), [3])
    ensures FreeSet(NearlyFull(), Cap(65536)) == {END_MARK, END_MARK + 1} && LowFree(NearlyFull(), Cap(65536)) == {}
  {
    var f := NearlyFull();
    assert END_MARK in FreeSet(f, 65536);
    assert FirstFree(f, 65536) == END_MARK;
  }

  /** With just two clusters left, both from 0xFFF8 up and neither 0xFFFF, growing by
      two lengthens a chain by one and loses one. */
  lemma TwoWildLoseOne(f: seq<Entry>, c: seq<int>, limit: nat)
    requires Ceiling(limit) < |f| && limit < 0x10000 && IsChain(f, c) && Stem(c) == c
    requires |FreeSet(f, limit)| == 2 && LowFree(f, limit) == {} && EOC !in FreeSet(f, limit)
    ensures InTable(f, c) && var r := Grow(f, c, limit, 2);
      |r.chain| == |c| + 1 && |Lost(f, r.fat, c, r.chain)| == 1
  {
    hide FreeSet, LowFree, FirstFree, Grow, IsChain;
    ChainBounds(f, c);
    var r := Grow(f, c, limit, 2);
    GrowLemma(f, c, limit, 2);
    GrownParts(f, c, limit, 2, r);
    Conserved(f, r.fat, c, r.chain);
  }

  /** On the shipped geometry that can happen. */
  lemma ShippedGeometryLosesCluster()
    ensures var f := NearlyFull(); IsChain(f, [3]) && var r := Grow(f, [3], Cap(65536), 2);
      && Candidate(f, 65536) == END_MARK
      && |r.chain| == 2 && |Lost(f, r.fat, [3], r.chain)| == 1
  {
    NearlyFullFree();
    hide NearlyFull, FreeSet, LowFree, IsChain, Grow, FirstFree, Lost;
    TwoWildLoseOne(NearlyFull(), [3], Cap(65536));
  }

  // ---------------------------------------------------------- whole runs

  datatype Op = Generate(count: int) | Extend(head: int) | Erase(head: int)

  datatype State = State(fat: seq<Entry>, chains: set<seq<int>>)

  ghost predicate HasHead(chains: set<seq<int>>, head: int) {
    exists c :: c in chains && |c| > 0 && c[0] == head
  }

  ghost function WithHead(chains: set<seq<int>>, head: int): (c: seq<int>)
    requires HasHead(chains, head)
    ensures c in chains && |c| > 0 && c[0] == head
  {
    var c :| c in chains && |c| > 0 && c[0] == head;
    c
  }

  /** Callers extend and erase only live chains. */
  ghost predicate Enabled(s: State, op: Op) {
    op.Generate? || HasHead(s.chains, op.head)
  }

  ghost predicate Inv(s: State, limit: nat) {
    && Ceiling(limit) < |s.fat|
    && limit < 0x10000
    && Forest(s.fat, s.chains)
  }

  /** No chain ends in a cluster from 0xFFF8 up. */
  ghost predicate AllStems(chains: set<seq<int>>) {
    forall c :: c in chains ==> Stem(c) == c
  }

  ghost function Step(s: State, op: Op, limit: nat): State
    requires Inv(s, limit) && Enabled(s, op)
  {
    match op
    case Generate(count) =>
      var r := Generated(s.fat, limit, count);
      if r.chain == [] then s else State(r.fat, s.chains + {r.chain})
    case Extend(head) =>
      var c := WithHead(s.chains, head);
      var r := Grow(s.fat, c, limit, 1);
      State(r.fat, s.chains - {c} + {r.chain})
    case Erase(head) =>
      var c := WithHead(s.chains, head);
      if head <= 2 then s else State(Erased(s.fat, c), s.chains - {c})
  }

  /** The clusters an operation takes and does not keep in its chain. */
  ghost function LostIn(s: State, op: Op, limit: nat): set<int>
    requires Inv(s, limit) && Enabled(s, op)
  {
    match op
    case Generate(count) =>
      var r := Generated(s.fat, limit, count); Lost(s.fat, r.fat, [], r.chain)
    case Extend(head) =>
      var c := WithHead(s.chains, head);
      var r := Grow(s.fat, c, limit, 1);
      Lost(s.fat, r.fat, c, r.chain)
    case Erase(_) => {}
  }

  /** One operation: the forest stands, the unowned clusters grow by exactly those
      it loses, and every chain but the one named keeps all its links. */
  lemma StepKeeps(s: State, op: Op, limit: nat)
    requires Inv(s, limit) && Enabled(s, op)
    ensures var t := Step(s, op, limit);
      && Inv(t, limit) && |t.fat| == |s.fat|
      && Unowned(t.fat, t.chains) == Unowned(s.fat, s.chains) + LostIn(s, op, limit)
      && (forall d, x :: d in s.chains && (op.Generate? || d[0] != op.head) && x in d
            ==> d in t.chains && 0 <= x < |s.fat| && t.fat[x] == s.fat[x])
  {
    hide Grow, Generated, FreeSet, FirstFree, Grows;
    var t := Step(s, op, limit);
    match op {
      case Generate(count) =>
        GenerateStep(s, count, limit);
      case Extend(head) =>
        ExtendStep(s, head, limit);
      case Erase(head) =>
        var c := WithHead(s.chains, head);
        if head > 2 {
          EraseKeepsForest(s.fat, s.chains, c);
        }
    }
    forall d, x | d in s.chains && (op.Generate? || d[0] != op.head) && x in d
      ensures d in t.chains && 0 <= x < |s.fat| && t.fat[x] == s.fat[x]
    {
      OtherChainUntouched(s, op, limit, d, x);
    }
  }

  lemma GenerateStep(s: State, count: int, limit: nat)
    requires Inv(s, limit)
    ensures var t := Step(s, Generate(count), limit);
      && Inv(t, limit) && |t.fat| == |s.fat|
      && Unowned(t.fat, t.chains) == Unowned(s.fat, s.chains) + LostIn(s, Generate(count), limit)
  {
    hide Grow, FreeSet, FirstFree, GeneratedLength;
    var r := Generated(s.fat, limit, count);
    if count >= 1 && FirstFree(s.fat, limit) != 0 {
      GeneratedLemma(s.fat, limit, count);
      assert [] !in s.chains;
      ForestReplace(s.fat, r.fat, s.chains, [], r.chain);
      assert s.chains - {[]} + {r.chain} == s.chains + {r.chain};
    } else {
      assert Lost(s.fat, s.fat, [], []) == {};
    }
  }

  lemma ExtendStep(s: State, head: int, limit: nat)
    requires Inv(s, limit) && Enabled(s, Extend(head))
    ensures var t := Step(s, Extend(head), limit);
      && Inv(t, limit) && |t.fat| == |s.fat|
      && Unowned(t.fat, t.chains) == Unowned(s.fat, s.chains) + LostIn(s, Extend(head), limit)
  {
    hide Grow, FreeSet, FirstFree, GrownLength;
    var c := WithHead(s.chains, head);
    GrowLemma(s.fat, c, limit, 1);
    GrowKeepsForest(s.fat, s.chains, c, limit, 1);
  }

  /** The lowest free cluster among 3, ..., `limit`. */
  ghost predicate IsLowestFree(f: seq<Entry>, limit: nat, n: int)
    requires limit < |f|
  {
    3 <= n <= limit && f[n] == 0 && forall x :: 3 <= x < n ==> f[x] != 0
  }

  lemma LowestFreeIs(f: seq<Entry>, limit: nat)
    requires 3 <= limit < |f|
    ensures var n := FirstFree(f, limit);
      if n == 0 then forall x :: 3 <= x <= limit ==> f[x] != 0 else IsLowestFree(f, limit, n)
  {
    hide FirstFree;
    assert forall x :: 3 <= x <= limit && f[x] == 0 ==> x in FreeSet(f, limit);
  }

  /** What generating does: nothing on a full disk or for no clusters; else one new
      chain of clusters that were free, starting at the lowest, as long as asked for
      or as there are free clusters below 0xFFF8, and no used entry changes. */
  lemma GenerateEffect(s: State, count: int, limit: nat) returns (c: seq<int>)
    requires Inv(s, limit) && limit >= 3
    ensures Enabled(s, Generate(count))
    ensures var t := Step(s, Generate(count), limit);
      if count <= 0 || (forall x :: 3 <= x <= limit ==> s.fat[x] != 0) then t == s
      else
        && t.chains == s.chains + {c} && c !in s.chains && IsChain(t.fat, c) && IsLowestFree(s.fat, limit, c[0])
        && (forall x :: x in c ==> 3 <= x <= limit && s.fat[x] == 0)
        && (limit < 0xFFF8 ==>
              |c| == if count <= |FreeSet(s.fat, limit)| then count else |FreeSet(s.fat, limit)|)
        && |t.fat| == |s.fat| && (forall x :: 0 <= x < |s.fat| && s.fat[x] != 0 ==> t.fat[x] == s.fat[x])
  {
    LowestFreeIs(s.fat, limit);
    c := [];
    if count >= 1 && FirstFree(s.fat, limit) != 0 {
      GeneratedLemma(s.fat, limit, count);
      LowGenerated(s.fat, limit, count);
      c := Generated(s.fat, limit, count).chain;
      hide FirstFree, Generated, GeneratedLength;
      if c in s.chains {
        ChainIsUsed(s.fat, c, c[0]);
      }
    }
  }

  /** What extending does: nothing on a full disk; else the lowest free cluster is
      linked behind the chain, in place of a last one from 0xFFF8 up, and marked as
      its end. */
  lemma ExtendEffect(s: State, head: int, limit: nat) returns (c: seq<int>)
    requires Inv(s, limit) && limit >= 3 && exists c :: c in s.chains && |c| > 0 && c[0] == head
    ensures Enabled(s, Extend(head)) && c in s.chains && |c| > 0 && c[0] == head
    ensures var t := Step(s, Extend(head), limit);
      if forall x :: 3 <= x <= limit ==> s.fat[x] != 0 then t == s
      else
        var stem := if |c| > 1 && c[|c| - 1] >= 0xFFF8 then c[..|c| - 1] else c;
        exists n :: IsLowestFree(s.fat, limit, n)
          && 0 <= stem[|stem| - 1] < |s.fat| && t.fat == s.fat[stem[|stem| - 1] := n][n := 0xFFFF]
          && t.chains == s.chains - {c} + {if n == 0xFFFF then stem else stem + [n]}
  {
    c := WithHead(s.chains, head);
    LowestFreeIs(s.fat, limit);
    OneMore(s.fat, c, limit);
    hide IsLowestFree, FirstFree, Grow, Forest, IsChain;
    var n := FirstFree(s.fat, limit);
    if n == 0 {
      assert s.chains - {c} + {c} == s.chains;
    } else {
      assert IsLowestFree(s.fat, limit, n);
    }
  }

  lemma OneMore(f: seq<Entry>, c: seq<int>, limit: nat)
    requires Ceiling(limit) < |f| && 3 <= limit < 0x10000 && |c| > 0 && InTable(f, c)
    ensures var n, r := FirstFree(f, limit), Grow(f, c, limit, 1);
      if n == 0 then r == Growth(f, c)
      else
        var stem := if |c| > 1 && c[|c| - 1] >= 0xFFF8 then c[..|c| - 1] else c;
        && 0 <= stem[|stem| - 1] < |f| && 0 <= n < |f| && r.fat == f[stem[|stem| - 1] := n][n := 0xFFFF]
        && r.chain == if n == 0xFFFF then stem else stem + [n]
  {
    assert Grow(f, c, limit, 1) == Extended(f, c, limit);
    hide FirstFree;
  }

  /** What erasing does: the chain is gone and exactly its clusters are free. */
  lemma EraseEffect(s: State, head: int, limit: nat) returns (c: seq<int>)
    requires Inv(s, limit) && head > 2 && exists c :: c in s.chains && |c| > 0 && c[0] == head
    ensures Enabled(s, Erase(head)) && c in s.chains && |c| > 0 && c[0] == head
    ensures var t := Step(s, Erase(head), limit);
      && t.chains == s.chains - {c} && |t.fat| == |s.fat|
      && forall x :: 0 <= x < |s.fat| ==> t.fat[x] == if x in c then 0 else s.fat[x]
  {
    c := WithHead(s.chains, head);
  }

  lemma OtherChainUntouched(s: State, op: Op, limit: nat, d: seq<int>, x: int)
    requires Inv(s, limit) && Enabled(s, op)
    requires d in s.chains && (op.Generate? || d[0] != op.head) && x in d
    ensures d in Step(s, op, limit).chains && 0 <= x < |s.fat|
    ensures |Step(s, op, limit).fat| == |s.fat| && Step(s, op, limit).fat[x] == s.fat[x]
  {
    hide Grow, FreeSet, FirstFree, GrownLength, GeneratedLength;
    ChainIsUsed(s.fat, d, x);
    match op {
      case Generate(count) =>
        if count >= 1 && FirstFree(s.fat, limit) != 0 {
          GeneratedLemma(s.fat, limit, count);
        }
      case Extend(head) =>
        var c := WithHead(s.chains, head);
        assert Disjoint(d, c);
        GrowLemma(s.fat, c, limit, 1);
        GrownParts(s.fat, c, limit, 1, Grow(s.fat, c, limit, 1));
      case Erase(head) =>
        assert Disjoint(d, WithHead(s.chains, head));
    }
  }

  /** While all numbers lie below the end marks, nothing is ever lost. */
  lemma LowStep(s: State, op: Op, limit: nat)
    requires Inv(s, limit) && Enabled(s, op) && limit < END_MARK && AllStems(s.chains)
    ensures LostIn(s, op, limit) == {} && AllStems(Step(s, op, limit).chains)
  {
    hide Grow, Generated, FreeSet, FirstFree, IsChain;
    match op {
      case Generate(count) =>
        LowGenerate(s, count, limit);
      case Extend(head) =>
        LowExtend(s, head, limit);
      case Erase(head) =>
    }
  }

  lemma LowGenerate(s: State, count: int, limit: nat)
    requires Inv(s, limit) && limit < END_MARK && AllStems(s.chains)
    ensures LostIn(s, Generate(count), limit) == {} && AllStems(Step(s, Generate(count), limit).chains)
  {
    hide Grow, FirstFree, GeneratedLength;
    var r := Generated(s.fat, limit, count);
    if count >= 1 && FirstFree(s.fat, limit) != 0 {
      GeneratedLemma(s.fat, limit, count);
      LowGenerated(s.fat, limit, count);
      Conserved(s.fat, r.fat, [], r.chain);
      assert r.chain[|r.chain| - 1] in r.chain;
    } else {
      assert Lost(s.fat, s.fat, [], []) == {};
    }
  }

  lemma LowExtend(s: State, head: int, limit: nat)
    requires Inv(s, limit) && Enabled(s, Extend(head)) && limit < END_MARK && AllStems(s.chains)
    ensures LostIn(s, Extend(head), limit) == {} && AllStems(Step(s, Extend(head), limit).chains)
  {
    hide Grow, FirstFree, FreeSet, Lost, Unowned;
    var c := WithHead(s.chains, head);
    InForest(s.fat, s.chains, c);
    GrowKeepsForest(s.fat, s.chains, c, limit, 1);
    LowGrown(s.fat, c, limit, 1);
  }

  /** Growth into clusters below the end marks keeps a stem a stem. */
  lemma LowGrown(f: seq<Entry>, c: seq<int>, limit: nat, k: nat)
    requires Ceiling(limit) < |f| && limit < END_MARK && IsChain(f, c) && Stem(c) == c
    ensures InTable(f, c) && var r := Grow(f, c, limit, k);
      Stem(r.chain) == r.chain && |r.chain| == |c| + Handed(f, limit, k)
  {
    hide Grow, FirstFree, GrownLength;
    GrowLemma(f, c, limit, k);
    LowGrowth(f, c, limit, k);
    var r := Grow(f, c, limit, k);
    ChainIsAcyclic(r.fat, r.chain);
    var last := Last(r.chain);
    assert last in r.chain;
    assert |r.chain| > |c| ==> last !in c;
  }

  ghost predicate Runs(s: State, ops: seq<Op>, limit: nat, t: State)
    requires Inv(s, limit)
    decreases |ops|
  {
    if ops == [] then s == t
    else
      && Enabled(s, ops[0])
      && (StepKeeps(s, ops[0], limit);
          Runs(Step(s, ops[0], limit), ops[1..], limit, t))
  }

  /** Over every run of generate, extend and erase the table stays a forest of
      disjoint, acyclic, properly ended chains; unowned clusters never come back,
      and none is added while all numbers lie below the end marks. */
  lemma {:induction false} EveryRunKeepsForest(s: State, ops: seq<Op>, limit: nat, t: State)
    requires Inv(s, limit) && Runs(s, ops, limit, t)
    ensures Forest(t.fat, t.chains) && |t.fat| == |s.fat|
    ensures forall c :: c in t.chains ==> Distinct(c) && forall x :: x in c ==> 0 <= x < |t.fat| && t.fat[x] != FREE
    ensures Unowned(s.fat, s.chains) <= Unowned(t.fat, t.chains)
    ensures limit < END_MARK && AllStems(s.chains) ==>
      AllStems(t.chains) && Unowned(t.fat, t.chains) == Unowned(s.fat, s.chains)
    decreases |ops|
  {
    if ops == [] {
      forall c | c in t.chains
        ensures Distinct(c) && forall x :: x in c ==> 0 <= x < |t.fat| && t.fat[x] != FREE
      {
        ChainIsAcyclic(t.fat, c);
        forall x | x in c
          ensures 0 <= x < |t.fat| && t.fat[x] != FREE
        {
          ChainIsUsed(t.fat, c, x);
        }
      }
    } else {
      hide Step, IsChain, Unowned, LostIn;
      StepKeeps(s, ops[0], limit);
      if limit < END_MARK && AllStems(s.chains) {
        LowStep(s, ops[0], limit);
      }
      EveryRunKeepsForest(Step(s, ops[0], limit), ops[1..], limit, t);
    }
  }
}

/**
 The user library's tokenizer.

 `Spans` lists the maximal runs of non-delimiters of a string; successive
 calls of the tokenizer yield exactly these, in order, writing a NUL behind
 each into the buffer.
 */
module Strtok {
  import opened Basics

  // ---------------------------------------------------------------- spans

  /** First position from `p` on that holds no delimiter, or the end. */
  ghost function SkipDelims(s: string, d: string, p: nat): (a: nat)
    requires p <= |s|
    ensures p <= a <= |s| && (a < |s| ==> s[a] !in d)
    ensures forall i :: p <= i < a ==> s[i] in d
    decreases |s| - p
  {
    if p < |s| && s[p] in d then SkipDelims(s, d, p + 1) else p
  }

  /** First position from `p` on that holds a delimiter, or the end. */
  ghost function TokenEnd(s: string, d: string, p: nat): (b: nat)
    requires p <= |s|
    ensures p <= b <= |s| && (b < |s| ==> s[b] in d)
    ensures forall i :: p <= i < b ==> s[i] !in d
    ensures p < |s| && s[p] !in d ==> p < b
    decreases |s| - p
  {
    if p < |s| && s[p] !in d then TokenEnd(s, d, p + 1) else p
  }

  datatype Span = Span(from: nat, to: nat)

  /** Where the tokenizer resumes after a token that ends at `b`. */
  function After(n: nat, b: nat): nat {
    if b < n then b + 1 else b
  }

  ghost function Spans(s: string, d: string, p: nat): seq<Span>
    requires p <= |s|
    decreases |s| - p
  {
    var a := SkipDelims(s, d, p);
    if a == |s| then []
    else var b := TokenEnd(s, d, a); [Span(a, b)] + Spans(s, d, After(|s|, b))
  }

  /** A maximal run of non-delimiters. */
  ghost predicate IsMaximalRun(s: string, d: string, r: Span) {
    && r.from < r.to <= |s|
    && (forall i :: r.from <= i < r.to ==> s[i] !in d)
    && (r.from > 0 ==> s[r.from - 1] in d)
    && (r.to < |s| ==> s[r.to] in d)
  }

  ghost predicate InOrder(spans: seq<Span>) {
    forall i, j :: 0 <= i < j < |spans| ==> spans[i].to < spans[j].from
  }

  lemma {:induction false} SpansInOrder(s: string, d: string, p: nat)
    requires p <= |s|
    ensures InOrder(Spans(s, d, p))
    ensures forall k :: 0 <= k < |Spans(s, d, p)| ==> p <= Spans(s, d, p)[k].from
    decreases |s| - p
  {
    var a := SkipDelims(s, d, p);
    if a < |s| {
      var b := TokenEnd(s, d, a);
      SpansInOrder(s, d, After(|s|, b));
      var rest := Spans(s, d, After(|s|, b));
      if b == |s| {
        assert rest == [];
      }
      assert Spans(s, d, p) == [Span(a, b)] + rest;
    }
  }

  /** The spans from a token boundary on are exactly the maximal runs there. */
  lemma {:induction false} SpansExact(s: string, d: string, p: nat)
    requires p <= |s| && (p > 0 && p < |s| ==> s[p - 1] in d)
    ensures forall r :: r in Spans(s, d, p) <==> IsMaximalRun(s, d, r) && p <= r.from
    decreases |s| - p
  {
    hide IsMaximalRun;
    var a := SkipDelims(s, d, p);
    if a < |s| {
      var b := TokenEnd(s, d, a);
      var rest := Spans(s, d, After(|s|, b));
      SpansExact(s, d, After(|s|, b));
      FirstRunIsMaximal(s, d, p);
      assert Spans(s, d, p) == [Span(a, b)] + rest;
      forall r
        ensures r in Spans(s, d, p) <==> IsMaximalRun(s, d, r) && p <= r.from
      {
        assert r in Spans(s, d, p) <==> r == Span(a, b) || r in rest;
        if IsMaximalRun(s, d, r) && p <= r.from {
          FirstRun(s, d, p, r);
        }
      }
    } else {
      forall r: Span | p <= r.from
        ensures !IsMaximalRun(s, d, r)
      {
        NoRunLeft(s, d, p, r);
      }
    }
  }

  lemma NoRunLeft(s: string, d: string, p: nat, r: Span)
    requires p <= |s| && SkipDelims(s, d, p) == |s| && p <= r.from
    ensures !IsMaximalRun(s, d, r)
  {
    assert r.from < |s| ==> s[r.from] in d;
  }

  lemma FirstRunIsMaximal(s: string, d: string, p: nat)
    requires p <= |s| && (p > 0 && p < |s| ==> s[p - 1] in d) && SkipDelims(s, d, p) < |s|
    ensures IsMaximalRun(s, d, Span(SkipDelims(s, d, p), TokenEnd(s, d, SkipDelims(s, d, p))))
  {
    var a := SkipDelims(s, d, p);
    assert a > p ==> s[a - 1] in d;
  }

  /** Any maximal run from `p` on is the first token or lies behind it. */
  lemma FirstRun(s: string, d: string, p: nat, r: Span)
    requires p <= |s| && (p > 0 && p < |s| ==> s[p - 1] in d)
    requires SkipDelims(s, d, p) < |s| && IsMaximalRun(s, d, r) && p <= r.from
    ensures var a := SkipDelims(s, d, p); var b := TokenEnd(s, d, a);
      r == Span(a, b) || After(|s|, b) <= r.from
  {
    var a := SkipDelims(s, d, p);
    var b := TokenEnd(s, d, a);
    assert s[r.from] !in d;
    assert r.from >= a;
    assert b < |s| ==> s[b] in d;
    if r.from < b {
      assert r.from == a;
    }
  }

  /** The tokens as strings. */
  ghost function Words(s: string, d: string, p: nat): seq<string>
    requires p <= |s|
    decreases |s| - p
  {
    var a := SkipDelims(s, d, p);
    if a == |s| then []
    else var b := TokenEnd(s, d, a); [s[a..b]] + Words(s, d, After(|s|, b))
  }

  lemma {:induction false} WordsAreSpans(s: string, d: string, p: nat)
    requires p <= |s|
    ensures |Words(s, d, p)| == |Spans(s, d, p)|
    ensures forall k :: 0 <= k < |Words(s, d, p)| ==>
      var r := Spans(s, d, p)[k]; r.from <= r.to <= |s| && Words(s, d, p)[k] == s[r.from..r.to]
    decreases |s| - p
  {
    var a := SkipDelims(s, d, p);
    if a < |s| {
      WordsAreSpans(s, d, After(|s|, TokenEnd(s, d, a)));
    }
  }

  // ------------------------------------------------------------ tokenizer

  /** `strlen` of a NUL-terminated buffer from `p` on. */
  ghost predicate HoldsFrom(buf: seq<char>, p: nat, s: string) {
    p <= |s| < |buf| && (forall i :: p <= i < |s| ==> buf[i] == s[i]) && buf[|s|] == NUL
  }

  class Tokenizer {
    /** The buffer being cut up. */
    var buf: array<char>
    /** The static cursor; -1 stands for NULL. */
    var sp: int

    constructor (buf: array<char>)
      ensures this.buf == buf && sp == -1
    {
      this.buf := buf;
      sp := -1;
    }

    /** `strtok(NULL, NULL)` */
    method Reset()
      modifies this`sp
      ensures sp == -1
    {
      sp := -1;
    }

    method IsDelimiter(c: char, delimiters: string) returns (r: bool)
      ensures r == (c in delimiters)
    {
      for i := 0 to |delimiters|
        invariant c !in delimiters[..i]
      {
        if c == delimiters[i] {
          return true;
        }
      }
      return false;
    }

    /** Skips the delimiters in front of the next token. */
    method SkipRun(from: nat, delimiters: string, ghost text: string) returns (p: nat)
      requires NUL !in delimiters && HoldsFrom(buf[..], from, text)
      ensures p == SkipDelims(text, delimiters, from)
    {
      p := from;
      while true
        invariant from <= p <= |text|
        invariant SkipDelims(text, delimiters, p) == SkipDelims(text, delimiters, from)
        decreases |text| - p
      {
        var skip := IsDelimiter(buf[p], delimiters);
        if !skip {
          break;
        }
        p := p + 1;
      }
    }

    /** Runs the cursor to the end of the token under it and cuts it off. */
    method CutToken(delimiters: string, ghost text: string)
      requires NUL !in delimiters && NUL !in text && sp >= 0 && HoldsFrom(buf[..], sp, text)
      modifies this`sp, buf
      ensures var b := TokenEnd(text, delimiters, old(sp));
        && sp == After(|text|, b) && buf[..] == old(buf[..])[b := NUL]
    {
      ghost var start, content := sp, buf[..];
      ghost var end := TokenEnd(text, delimiters, start);
      while buf[sp] != NUL
        invariant start <= sp <= |text| && buf[..] == content
        invariant TokenEnd(text, delimiters, sp) == end
        decreases |text| - sp
      {
        assert content[sp] == buf[sp];
        var found := IsDelimiter(buf[sp], delimiters);
        if found {
          assert sp == end;
          buf[sp] := NUL;
          sp := sp + 1;
          return;
        }
        sp := sp + 1;
      }
      assert content[sp] == NUL;
    }

    /** One call: the next token's position, or -1 when there is none. A string
        is taken up only when the cursor is NULL. */
    method Next(s: array?<char>, delimiters: string, ghost text: string) returns (token: int)
      requires NUL !in delimiters && NUL !in text
      requires sp == -1 && s != null ==> HoldsFrom(s[..], 0, text)
      requires sp != -1 ==> sp >= 0 && HoldsFrom(buf[..], sp, text)
      modifies this, if sp == -1 then {} else {buf}, s
      ensures old(sp) == -1 && s == null ==> token == -1 && sp == -1
      ensures !(old(sp) == -1 && s == null) ==>
        && buf == (if old(sp) == -1 then s else old(buf))
        && var a := SkipDelims(text, delimiters, if old(sp) == -1 then 0 else old(sp));
           var was := if old(sp) == -1 then old(s[..]) else old(buf[..]);
           if a == |text| then token == -1 && sp == -1 && buf[..] == was
           else
             var b := TokenEnd(text, delimiters, a);
             && token == a && sp == After(|text|, b)
             && HoldsToken(buf[..], text, a, b) && HoldsFrom(buf[..], sp, text)
             && buf[..] == was[b := NUL]
    {
      hide SkipDelims, TokenEnd;
      if s == null && sp == -1 {
        return -1;
      }
      if s != null && sp == -1 {
        buf := s;
        sp := 0;
      }
      var p := SkipRun(sp, delimiters, text);
      sp := p;
      assert forall i :: 0 <= i < |text| ==> text[i] != NUL;
      if buf[sp] == NUL {
        sp := -1;
        return -1;
      }
      token := p;
      CutToken(delimiters, text);
    }

    /** A call with NULL: from one token in hand to the one behind it, which the
        earlier tokens survive. */
    method Following(delimiters: string, ghost text: string, ghost p: nat) returns (token: int)
      requires NUL !in delimiters && NUL !in text && p <= |text| && SkipDelims(text, delimiters, p) < |text|
      requires Pending(text, delimiters, p, SkipDelims(text, delimiters, p), sp, buf[..])
      modifies this, buf
      ensures buf == old(buf)
      ensures var b := TokenEnd(text, delimiters, SkipDelims(text, delimiters, p));
        && Pending(text, delimiters, After(|text|, b), token, sp, buf[..])
        && buf[..b + 1] == old(buf[..b + 1])
    {
      hide SkipDelims, TokenEnd;
      token := Next(null, delimiters, text);
    }

    /** Calls from reset until no token is left: the tokens are the starts of the
        maximal runs of non-delimiters, all of them and in order, and in the end
        each lies in the buffer as a string of its own. */
    method AllTokens(s: array<char>, delimiters: string, ghost text: string) returns (tokens: seq<int>)
      requires NUL !in delimiters && NUL !in text && HoldsFrom(s[..], 0, text)
      modifies this, s
      ensures sp == -1 && AreTokens(tokens, Spans(text, delimiters, 0))
      ensures HoldsAll(s[..], text, Spans(text, delimiters, 0))
      ensures forall r :: r in Spans(text, delimiters, 0) <==> IsMaximalRun(text, delimiters, r)
      ensures InOrder(Spans(text, delimiters, 0))
    {
      hide Spans, SkipDelims, TokenEnd, Pending, IsMaximalRun, InOrder, AreTokens, HoldsAll, HoldsToken, HoldsFrom;
      SpansExact(text, delimiters, 0);
      SpansInOrder(text, delimiters, 0);
      ghost var spans := Spans(text, delimiters, 0);
      Reset();
      var token := Next(s, delimiters, text);
      PendingFirst(text, delimiters, token, sp, buf[..]);
      tokens := [];
      ghost var p: nat := 0;
      NoTokens(s[..], text, spans);
      while token != -1
        invariant buf == s && p <= |text| && Pending(text, delimiters, p, token, sp, buf[..])
        invariant |tokens| <= |spans| && AreTokens(tokens, spans[..|tokens|])
        invariant spans[|tokens|..] == Spans(text, delimiters, p)
        invariant HoldsAll(s[..], text, spans[..|tokens|]) && forall r :: r in spans[..|tokens|] ==> r.to <= p
        decreases |text| - p + (if token == -1 then 0 else 1)
      {
        PendingToken(text, delimiters, p, token, sp, buf[..]);
        ghost var b := TokenEnd(text, delimiters, token);
        ghost var before := s[..];
        ghost var rest := Spans(text, delimiters, After(|text|, b));
        OneMoreToken(before, text, tokens, spans, Span(token, b), rest);
        tokens := tokens + [token];
        token := Following(delimiters, text, p);
        TokensSurvive(before, s[..], text, spans[..|tokens|], b);
        p := After(|text|, b);
      }
      PendingEnd(text, delimiters, p, token, sp, buf[..]);
      assert spans[..|tokens|] == spans;
    }
  }

  /** Each span lies in the buffer as a string of its own. */
  ghost predicate HoldsAll(buf: seq<char>, text: string, spans: seq<Span>) {
    forall r :: r in spans ==> r.from <= r.to <= |text| && HoldsToken(buf, text, r.from, r.to)
  }

  lemma NoTokens(buf: seq<char>, text: string, spans: seq<Span>)
    ensures AreTokens([], spans[..0]) && HoldsAll(buf, text, spans[..0])
  {
  }

  /** The token in hand is the start of the next span. */
  lemma OneMoreToken(buf: seq<char>, text: string, tokens: seq<int>, spans: seq<Span>, r: Span, rest: seq<Span>)
    requires |tokens| <= |spans| && AreTokens(tokens, spans[..|tokens|]) && spans[|tokens|..] == [r] + rest
    requires HoldsAll(buf, text, spans[..|tokens|]) && r.from <= r.to <= |text| && HoldsToken(buf, text, r.from, r.to)
    ensures var n := |tokens| + 1;
      && n <= |spans| && AreTokens(tokens + [r.from], spans[..n]) && spans[n..] == rest
      && HoldsAll(buf, text, spans[..n]) && spans[..n] == spans[..|tokens|] + [r]
  {
    var n := |tokens|;
    assert spans[n] == spans[n..][0] == r;
    assert spans[n + 1..] == spans[n..][1..] == rest;
    assert spans[..n + 1] == spans[..n] + [r];
  }

  /** What happens behind a position leaves the tokens before it alone. */
  lemma TokensSurvive(before: seq<char>, after: seq<char>, text: string, spans: seq<Span>, b: nat)
    requires HoldsAll(before, text, spans) && |before| == |after| && b < |before| && before[..b + 1] == after[..b + 1]
    requires forall r :: r in spans ==> r.to <= b
    ensures HoldsAll(after, text, spans)
  {
    forall i | 0 <= i <= b
      ensures before[i] == after[i]
    {
      assert before[i] == before[..b + 1][i];
    }
  }

  /** The tokens are the spans' starts. */
  ghost predicate AreTokens(tokens: seq<int>, spans: seq<Span>) {
    |tokens| == |spans| && forall k :: 0 <= k < |tokens| ==> tokens[k] == spans[k].from
  }

  /** Between calls: the token in hand is the first one from `p` on. */
  ghost predicate Pending(text: string, delimiters: string, p: nat, token: int, sp: int, buf: seq<char>)
    requires p <= |text|
  {
    var a := SkipDelims(text, delimiters, p);
    if a == |text| then token == -1 && sp == -1
    else
      var b := TokenEnd(text, delimiters, a);
      token == a && sp == After(|text|, b) && HoldsToken(buf, text, a, b) && HoldsFrom(buf, sp, text)
  }

  lemma PendingFirst(text: string, delimiters: string, token: int, sp: int, buf: seq<char>)
    requires var a := SkipDelims(text, delimiters, 0);
      if a == |text| then token == -1 && sp == -1
      else
        var b := TokenEnd(text, delimiters, a);
        token == a && sp == After(|text|, b) && HoldsToken(buf, text, a, b) && HoldsFrom(buf, sp, text)
    ensures Pending(text, delimiters, 0, token, sp, buf)
  {
  }

  lemma PendingToken(text: string, delimiters: string, p: nat, token: int, sp: int, buf: seq<char>)
    requires p <= |text| && Pending(text, delimiters, p, token, sp, buf) && token != -1
    ensures p <= token == SkipDelims(text, delimiters, p) < |text|
    ensures token < TokenEnd(text, delimiters, token) <= |text|
    ensures HoldsToken(buf, text, token, TokenEnd(text, delimiters, token))
    ensures p < After(|text|, TokenEnd(text, delimiters, token)) <= |text|
    ensures Spans(text, delimiters, p) == [Span(token, TokenEnd(text, delimiters, token))]
              + Spans(text, delimiters, After(|text|, TokenEnd(text, delimiters, token)))
  {
  }

  lemma PendingEnd(text: string, delimiters: string, p: nat, token: int, sp: int, buf: seq<char>)
    requires p <= |text| && Pending(text, delimiters, p, token, sp, buf) && token == -1
    ensures SkipDelims(text, delimiters, p) == |text| && sp == -1 && Spans(text, delimiters, p) == []
  {
  }

  /** The buffer holds the token [a, b) of the text as a string of its own. */
  ghost predicate HoldsToken(buf: seq<char>, text: string, a: nat, b: nat)
    requires a <= b <= |text|
  {
    b < |buf| && (forall i :: a <= i < b ==> buf[i] == text[i]) && buf[b] == NUL
  }
}

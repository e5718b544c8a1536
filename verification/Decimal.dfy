/**
 Printing and reading 32-bit integers in decimal. The printer works on the
 negative of the number, so that the smallest integer needs no special case.
 */
module Decimal {
  import opened Basics

  const TEXT_SIZE := 12

  /** The value of a string of digits. */
  ghost function Value(s: string): int {
    if s == [] then 0 else 10 * Value(s[..|s| - 1]) + DigitValue(s[|s| - 1])
  }

  /** The ten digits and nothing else, each with its value. */
  lemma DigitsAre(c: char)
    ensures IsDigit(c) <==> c in "0123456789"
    ensures forall d :: 0 <= d < 10 ==> DigitValue("0123456789"[d]) == d
  {
    var digits := "0123456789";
    assert forall d :: 0 <= d < 10 ==> digits[d] as int == '0' as int + d;
    if IsDigit(c) {
      assert digits[DigitValue(c)] == c;
    }
  }

  ghost predicate AllDigits(s: string) {
    forall i :: 0 <= i < |s| ==> IsDigit(s[i])
  }

  /** The number a printed string stands for. */
  ghost function Decode(s: string): int {
    if s != [] && s[0] == '-' then -Value(s[1..]) else Value(s)
  }

  ghost function Pow10(n: nat): (p: int)
    ensures p >= 1
  {
    if n == 0 then 1 else 10 * Pow10(n - 1)
  }

  /** `n` with `k` zeros behind it. */
  ghost function Shifted(n: int, k: nat): int {
    n * Pow10(k)
  }

  /** A digit in front adds its weight. */
  lemma {:induction false} ValueCons(c: char, s: string)
    ensures Value([c] + s) == Shifted(DigitValue(c), |s|) + Value(s)
  {
    if s == [] {
      assert [c][..0] == [];
    } else {
      var front, last := s[..|s| - 1], s[|s| - 1];
      assert ([c] + s)[..|s|] == [c] + front;
      ValueCons(c, front);
    }
  }

  /** C's `i % 10` and `i / 10` for `i <= 0` round toward zero. */
  function RemainderC(i: int): int
    requires i <= 0
  {
    -((-i) % 10)
  }

  function QuotientC(i: int): int
    requires i <= 0
  {
    -((-i) / 10)
  }

  /** One more digit: the digits so far and the rest still make up the number. */
  lemma DigitStep(i: int, n: nat)
    requires i <= 0
    ensures QuotientC(i) <= 0 && 0 <= -RemainderC(i) <= 9
    ensures Shifted(-QuotientC(i), n + 1) + Shifted(-RemainderC(i), n) == Shifted(-i, n)
    ensures i < 0 ==> -QuotientC(i) < -i
    ensures i < 0 && QuotientC(i) == 0 ==> RemainderC(i) != 0
  {
    var q, r := (-i) / 10, (-i) % 10;
    assert -i == 10 * q + r;
    assert Pow10(n + 1) == 10 * Pow10(n);
    assert q * (10 * Pow10(n)) + r * Pow10(n) == (10 * q + r) * Pow10(n);
  }

  /** Ten digits are enough for a 32-bit number. */
  lemma RoomLeft(rest: int, n: nat, total: int)
    requires rest >= 1 && Shifted(rest, n) <= total < Pow10(10)
    ensures n < 10
  {
    assert rest * Pow10(n) >= Pow10(n);
    if n >= 10 {
      PowMonotone(10, n);
    }
  }

  lemma {:induction false} PowMonotone(m: nat, n: nat)
    requires m <= n
    ensures Pow10(m) <= Pow10(n)
    decreases n
  {
    if m < n {
      PowMonotone(m, n - 1);
    }
  }

  /** The digits so far and the rest `i <= 0` still make up `total`, and there is
      room for the digits to come. */
  ghost predicate Partial(s: string, i: int, total: int) {
    && i <= 0 && AllDigits(s) && |s| <= 10 && (i != 0 ==> |s| <= 9)
    && Value(s) >= 0 && Shifted(-i, |s|) + Value(s) == total < Pow10(10)
    && (i == 0 && total > 0 ==> s != [] && s[0] != '0')
  }

  lemma PartialStart(total: int)
    requires 0 <= total <= 0x8000_0000
    ensures Partial([], -total, total)
  {
    PowTen();
    assert Pow10(0) == 1;
  }

  lemma PartialStep(s: string, i: int, total: int)
    requires Partial(s, i, total) && i < 0
    ensures 0 <= -RemainderC(i) <= 9 && 0 <= -QuotientC(i) < -i
    ensures Partial([('0' as int - RemainderC(i)) as char] + s, QuotientC(i), total)
  {
    hide Pow10, Value, Shifted, RemainderC, QuotientC;
    DigitStep(i, |s|);
    var c := ('0' as int - RemainderC(i)) as char;
    ValueCons(c, s);
    ShiftPositive(DigitValue(c), |s|);
    if QuotientC(i) != 0 {
      RoomLeft(-QuotientC(i), |s| + 1, total);
    }
  }

  lemma PartialEnd(s: string, total: int)
    requires Partial(s, 0, total)
    ensures Value(s) == total && (total > 0 ==> s != [] && s[0] != '0')
  {
  }

  lemma ShiftPositive(n: int, k: nat)
    requires n >= 0
    ensures Shifted(n, k) >= 0
  {
  }

  /** Fills the buffer backwards with the digits of `-i`. */
  method WriteDigits(text: array<char>, start: int) returns (loc: nat)
    requires text.Length == TEXT_SIZE && text[TEXT_SIZE - 1] == NUL && -0x8000_0000 <= start <= 0
    modifies text
    ensures 1 <= loc <= TEXT_SIZE - 1 && text[TEXT_SIZE - 1] == NUL
    ensures AllDigits(text[loc..TEXT_SIZE - 1]) && Value(text[loc..TEXT_SIZE - 1]) == -start
    ensures if start == 0 then loc == TEXT_SIZE - 1 else loc < TEXT_SIZE - 1 && text[loc] != '0'
  {
    hide Partial, RemainderC, QuotientC, Value;
    loc := TEXT_SIZE - 1;
    var i := start;
    ghost var s := "";
    PartialStart(-start);
    while i != 0
      invariant i <= 0 && loc == TEXT_SIZE - 1 - |s| && |s| <= 10 && text[TEXT_SIZE - 1] == NUL
      invariant text[loc..TEXT_SIZE - 1] == s && Partial(s, i, -start)
      invariant start == 0 ==> s == ""
      decreases -i
    {
      PartialStep(s, i, -start);
      PartialBounds(s, i, -start);
      var c := ('0' as int - RemainderC(i)) as char;
      loc := loc - 1;
      text[loc] := c;
      assert text[loc..TEXT_SIZE - 1] == [c] + s;
      s := [c] + s;
      i := QuotientC(i);
    }
    PartialEnd(s, -start);
    PartialBounds(s, 0, -start);
  }

  lemma PartialBounds(s: string, i: int, total: int)
    requires Partial(s, i, total)
    ensures |s| <= 10 && (i != 0 ==> |s| <= 9) && AllDigits(s)
  {
  }

  /** `itoa`: the text decodes to the number, has no leading zero and never
      leaves the 12-byte buffer. */
  method Itoa(number: int) returns (text: array<char>, loc: nat)
    requires -0x8000_0000 <= number < 0x8000_0000
    ensures fresh(text) && text.Length == TEXT_SIZE == 12 && loc < TEXT_SIZE - 1 && text[TEXT_SIZE - 1] == NUL
    ensures Decode(text[loc..TEXT_SIZE - 1]) == number
    ensures number >= 0 ==> AllDigits(text[loc..TEXT_SIZE - 1])
    ensures number < 0 ==> text[loc] == '-' && AllDigits(text[loc + 1..TEXT_SIZE - 1]) && text[loc + 1] != '0'
    ensures number > 0 ==> text[loc] != '0'
    ensures number == 0 ==> text[loc..TEXT_SIZE - 1] == "0"
  {
    hide Value;
    text := new char[TEXT_SIZE](_ => NUL);
    var negative := true;
    var i := number;
    if i >= 0 {
      negative := false;
      i := -i;
    }
    loc := WriteDigits(text, i);
    ValueZero();
    if loc == TEXT_SIZE - 1 {
      assert text[loc..TEXT_SIZE - 1] == [];
      loc := loc - 1;
      text[loc] := '0';
      assert text[loc..TEXT_SIZE - 1] == ['0'];
    }
    ghost var s := text[loc..TEXT_SIZE - 1];
    assert IsDigit(s[0]) && Value(s) == -i && (i != 0 ==> s[0] != '0');
    if negative {
      loc := loc - 1;
      text[loc] := '-';
      assert text[loc..TEXT_SIZE - 1] == ['-'] + s && (['-'] + s)[1..] == s;
      assert text[loc + 1..TEXT_SIZE - 1] == s;
    }
  }

  lemma ValueZero()
    ensures Value(['0']) == 0 && Value([]) == 0
  {
    assert ['0'][..0] == [];
  }

  lemma PowTen()
    ensures Pow10(10) == 10_000_000_000
  {
    assert Pow10(2) == 100;
    assert Pow10(4) == 10_000;
    assert Pow10(6) == 1_000_000;
    assert Pow10(8) == 100_000_000;
  }

  /** The digits at the start of a string. */
  ghost function LeadingDigits(s: string): (d: string)
    ensures d <= s && AllDigits(d) && (|d| < |s| ==> !IsDigit(s[|d|]))
  {
    if s == [] || !IsDigit(s[0]) then [] else [s[0]] + LeadingDigits(s[1..])
  }

  /** A number cut to a signed 32-bit integer. */
  function Int32(n: int): (r: int)
    ensures -0x8000_0000 <= r < 0x8000_0000
    ensures -0x8000_0000 <= n < 0x8000_0000 ==> r == n
  {
    (n + 0x8000_0000) % 0x1_0000_0000 - 0x8000_0000
  }

  /** Cutting on the way or at the end is the same. */
  lemma CutStep(n: int, digit: int)
    ensures Int32(Int32(Int32(n) * 10) + digit) == Int32(10 * n + digit)
  {
    CutAgrees(n);
    CutAgrees(Int32(n) * 10);
    var q :| Int32(n) == n + 0x1_0000_0000 * q;
    var p :| Int32(Int32(n) * 10) == Int32(n) * 10 + 0x1_0000_0000 * p;
    CutShift(10 * n + digit, 10 * q + p);
  }

  lemma CutAgrees(n: int)
    ensures exists q :: Int32(n) == n + 0x1_0000_0000 * q
  {
    var q := -((n + 0x8000_0000) / 0x1_0000_0000);
    assert Int32(n) == n + 0x1_0000_0000 * q;
  }

  lemma CutShift(n: int, q: int)
    ensures Int32(n + 0x1_0000_0000 * q) == Int32(n)
  {
  }

  /** `atoi` reads the value of the leading digits, cut to 32 bits; there is no sign. */
  method Atoi(s: string) returns (res: int)
    ensures res == Int32(Value(LeadingDigits(s)))
  {
    hide Int32;
    res := 0;
    var p := 0;
    ghost var d := LeadingDigits(s);
    while p < |s| && IsDigit(s[p])
      invariant 0 <= p <= |d| && res == Int32(Value(d[..p]))
    {
      assert p < |d| && d[p] == s[p];
      assert d[..p + 1][..p] == d[..p];
      CutStep(Value(d[..p]), DigitValue(s[p]));
      res := Int32(res * 10);
      res := Int32(res + DigitValue(s[p]));
      p := p + 1;
    }
    assert d[..p] == d;
  }

  /** Reading back a printed non-negative number gives the number. */
  method PrintThenRead(number: int) returns (r: int)
    requires 0 <= number < 0x8000_0000
    ensures r == number
  {
    var text, loc := Itoa(number);
    var s := text[loc..TEXT_SIZE - 1];
    assert |s| > 0 && IsDigit(s[0]);
    AllLeading(s);
    r := Atoi(s);
  }

  lemma {:induction false} AllLeading(s: string)
    requires AllDigits(s)
    ensures LeadingDigits(s) == s
  {
    if s != [] {
      AllLeading(s[1..]);
    }
  }
}

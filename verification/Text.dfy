/** Decimal numerals, splitting and joining, as JavaScript's template literals, `split` and `join` do it. */
module Text {
  import opened Wrappers
  import opened Sequences

  // ─── Numerals ───

  function Decimal(n: nat): (r: string)
    ensures |r| > 0 && forall c :: c in r ==> '0' <= c <= '9'
  {
    var digit := ["0123456789"[n % 10]];
    if n < 10 then digit else Decimal(n / 10) + digit
  }

  function Numeral(n: int): (r: string)
    ensures forall c :: c in r ==> c == '-' || '0' <= c <= '9'
  {
    if n < 0 then "-" + Decimal(-n) else Decimal(n)
  }

  lemma {:induction false} DecimalInjective(a: nat, b: nat)
    requires Decimal(a) == Decimal(b)
    ensures a == b
  {
    var da, db := Decimal(a), Decimal(b);
    assert da[|da| - 1] == "0123456789"[a % 10] && db[|db| - 1] == "0123456789"[b % 10];
    assert a % 10 == b % 10;
    if a >= 10 && b >= 10 {
      assert Decimal(a / 10) == da[..|da| - 1] == db[..|db| - 1] == Decimal(b / 10);
      DecimalInjective(a / 10, b / 10);
    }
  }

  predicate AllDigits(s: string) {
    s != [] && forall i :: 0 <= i < |s| ==> '0' <= s[i] <= '9'
  }

  function DigitsValue(s: string): nat
    requires forall i :: 0 <= i < |s| ==> '0' <= s[i] <= '9'
  {
    if s == [] then 0
    else 10 * DigitsValue(s[..|s| - 1]) + (s[|s| - 1] as int - '0' as int)
  }

  /** JavaScript's `Number` on plain decimal text, read as 0 by the bitwise operators otherwise. */
  function Number(s: string): nat {
    if AllDigits(s) then DigitsValue(s) else 0
  }

  lemma {:induction false} NumberOfDecimal(n: nat)
    ensures Number(Decimal(n)) == n
  {
    var s := Decimal(n);
    assert s[|s| - 1] == "0123456789"[n % 10];
    if n >= 10 {
      NumberOfDecimal(n / 10);
      assert s[..|s| - 1] == Decimal(n / 10);
      assert AllDigits(s[..|s| - 1]);
    } else {
      assert s[..|s| - 1] == [];
      assert DigitsValue([]) == 0;
    }
    assert forall i :: 0 <= i < |s| ==> s[i] in s;
  }

  lemma NumeralSign(n: int)
    ensures n < 0 <==> Numeral(n)[0] == '-'
  {
    if n >= 0 {
      assert Decimal(n)[0] in Decimal(n);
    }
  }

  lemma NumeralInjective(a: int, b: int)
    requires Numeral(a) == Numeral(b)
    ensures a == b
  {
    NumeralSign(a);
    NumeralSign(b);
    if a < 0 {
      assert Decimal(-a) == Numeral(a)[1..] == Numeral(b)[1..] == Decimal(-b);
      DecimalInjective(-a, -b);
    } else {
      DecimalInjective(a, b);
    }
  }

  function FirstIndex(s: string, mark: char): (r: nat)
    ensures r <= |s|
  {
    if s == [] || s[0] == mark then 0 else 1 + FirstIndex(s[1..], mark)
  }

  lemma {:induction false} FirstIndexAfter(a: string, b: string, mark: char)
    requires mark !in a
    ensures FirstIndex(a + [mark] + b, mark) == |a|
  {
    if a == [] {
      assert (a + [mark] + b)[0] == mark;
    } else {
      FirstIndexAfter(a[1..], b, mark);
      assert (a + [mark] + b)[1..] == a[1..] + [mark] + b;
    }
  }

  /** Text before the first `mark` and text after it are determined by the whole. */
  lemma CutAtFirst(a: string, b: string, c: string, d: string, mark: char)
    requires a + [mark] + b == c + [mark] + d && mark !in a && mark !in c
    ensures a == c && b == d
  {
    FirstIndexAfter(a, b, mark);
    FirstIndexAfter(c, d, mark);
    var whole := a + [mark] + b;
    assert whole[..|a|] == a && whole[..|c|] == c;
    assert whole[|a| + 1..] == b && whole[|c| + 1..] == d;
  }

  function LastIndex(s: string, mark: char): int {
    if s == [] then -1 else if s[|s| - 1] == mark then |s| - 1 else LastIndex(s[..|s| - 1], mark)
  }

  lemma {:induction false} LastIndexBefore(a: string, b: string, mark: char)
    requires mark !in b
    ensures LastIndex(a + [mark] + b, mark) == |a|
    decreases |b|
  {
    var whole := a + [mark] + b;
    if b == [] {
      assert whole[|whole| - 1] == mark;
    } else {
      LastIndexBefore(a, b[..|b| - 1], mark);
      assert whole[|whole| - 1] == b[|b| - 1];
      assert whole[..|whole| - 1] == a + [mark] + b[..|b| - 1];
    }
  }

  lemma CutAtLast(a: string, b: string, c: string, d: string, mark: char)
    requires a + [mark] + b == c + [mark] + d && mark !in b && mark !in d
    ensures a == c && b == d
  {
    LastIndexBefore(a, b, mark);
    LastIndexBefore(c, d, mark);
    var whole := a + [mark] + b;
    assert whole[..|a|] == a && whole[..|c|] == c;
    assert whole[|a| + 1..] == b && whole[|c| + 1..] == d;
  }

  // ─── Characters (ASCII case mapping) ───

  function LowerChar(c: char): char { if 'A' <= c <= 'Z' then (c as int + 32) as char else c }

  function UpperChar(c: char): char { if 'a' <= c <= 'z' then (c as int - 32) as char else c }

  function Lower(s: string): (r: string)
    ensures |r| == |s| && forall i :: 0 <= i < |r| ==> r[i] == LowerChar(s[i])
  {
    seq(|s|, i requires 0 <= i < |s| => LowerChar(s[i]))
  }

  function Upper(s: string): (r: string)
    ensures |r| == |s| && forall i :: 0 <= i < |r| ==> r[i] == UpperChar(s[i])
  {
    seq(|s|, i requires 0 <= i < |s| => UpperChar(s[i]))
  }

  // ─── Cutting and trimming ───

  /** The texts before and after the first `mark`, if there is one. */
  function Cut(s: string, mark: char): Option<(string, string)> {
    var i := FirstIndex(s, mark);
    if i < |s| then Some((s[..i], s[i + 1..])) else None
  }

  function Before(s: string, mark: char): string {
    if Cut(s, mark) == None then s else Cut(s, mark).value.0
  }

  lemma CutAtMark(a: string, b: string, mark: char)
    requires mark !in a
    ensures Cut(a + [mark] + b, mark) == Some((a, b))
  {
    FirstIndexAfter(a, b, mark);
    var whole := a + [mark] + b;
    assert whole[..|a|] == a && whole[|a| + 1..] == b;
  }

  /** `Split(s, "\n")`. */
  function Lines(s: string): seq<string>
    decreases |s|
  {
    var cut := Cut(s, '\n');
    if cut == None then [s] else [cut.value.0] + Lines(cut.value.1)
  }

  lemma {:induction false} FirstIndexOfAbsent(s: string, mark: char)
    requires mark !in s
    ensures FirstIndex(s, mark) == |s|
  {
    if s != [] {
      FirstIndexOfAbsent(s[1..], mark);
    }
  }

  lemma LinesOfOne(line: string)
    requires '\n' !in line
    ensures Lines(line) == [line]
  {
    FirstIndexOfAbsent(line, '\n');
  }

  lemma LinesOfMore(line: string, rest: string)
    requires '\n' !in line
    ensures Lines(line + ['\n'] + rest) == [line] + Lines(rest)
  {
    CutAtMark(line, rest, '\n');
  }

  /** White space as `TrimSpace` understands it. */
  predicate IsSpace(c: char) {
    || c in "\t\n\U{000B}\U{000C}\r \U{0085}\U{00A0}\U{1680}\U{2028}\U{2029}\U{202F}\U{205F}\U{3000}"
    || '\U{2000}' <= c <= '\U{200A}'
  }

  predicate AllSpace(s: string) {
    forall c :: c in s ==> IsSpace(c)
  }

  function TrimStart(s: string): string {
    if s != [] && IsSpace(s[0]) then TrimStart(s[1..]) else s
  }

  function TrimEnd(s: string): string {
    if s != [] && IsSpace(s[|s| - 1]) then TrimEnd(s[..|s| - 1]) else s
  }

  function TrimSpace(s: string): string { TrimEnd(TrimStart(s)) }

  predicate IsTrimmed(s: string) {
    s != [] ==> !IsSpace(s[0]) && !IsSpace(s[|s| - 1])
  }

  lemma TrimmedIsFixed(s: string)
    requires IsTrimmed(s)
    ensures TrimSpace(s) == s
  {}

  lemma {:induction false} TrimIgnoresEnd(s: string, end: string)
    requires s != [] && IsTrimmed(s) && AllSpace(end)
    ensures TrimSpace(s + end) == s
    decreases |end|
  {
    if end == [] {
      assert s + end == s;
    } else {
      var last := |end| - 1;
      TrimIgnoresEnd(s, end[..last]);
      assert (s + end)[|s + end| - 1] == end[last];
      assert (s + end)[..|s + end| - 1] == s + end[..last];
      assert (s + end)[0] == s[0] == (s + end[..last])[0];
    }
  }

  lemma CutCounts(s: string, mark: char)
    ensures Cut(s, mark) == None <==> mark !in s
    ensures Cut(s, mark).Some? ==> multiset(s)[mark] == 1 + multiset(Cut(s, mark).value.1)[mark]
  {
    FirstIndexIsFirst(s, mark);
    var i := FirstIndex(s, mark);
    if i < |s| {
      assert s == s[..i] + [mark] + s[i + 1..];
      CountConcat(s[..i] + [mark], s[i + 1..], mark);
      CountConcat(s[..i], [mark], mark);
      assert multiset(s[..i])[mark] == 0;
    }
  }

  lemma {:induction false} FirstIndexIsFirst(s: string, mark: char)
    ensures mark !in s[..FirstIndex(s, mark)]
    ensures FirstIndex(s, mark) < |s| ==> s[FirstIndex(s, mark)] == mark
    ensures FirstIndex(s, mark) == |s| <==> mark !in s
  {
    if s != [] && s[0] != mark {
      var i := FirstIndex(s[1..], mark);
      FirstIndexIsFirst(s[1..], mark);
      assert s == [s[0]] + s[1..];
      assert s[..i + 1] == [s[0]] + s[1..][..i];
    }
  }

  lemma {:induction false} TrimStartKeeps(s: string, c: char)
    requires c in s && !IsSpace(c)
    ensures c in TrimStart(s)
  {
    if IsSpace(s[0]) {
      assert s == [s[0]] + s[1..];
      TrimStartKeeps(s[1..], c);
    }
  }

  lemma {:induction false} TrimEndKeeps(s: string, c: char)
    requires c in s && !IsSpace(c)
    ensures c in TrimEnd(s)
  {
    if IsSpace(s[|s| - 1]) {
      assert s == s[..|s| - 1] + [s[|s| - 1]];
      TrimEndKeeps(s[..|s| - 1], c);
    }
  }

  lemma {:induction false} TrimStartSpec(s: string) returns (a: string)
    ensures AllSpace(a) && s == a + TrimStart(s) && (TrimStart(s) != [] ==> !IsSpace(TrimStart(s)[0]))
  {
    a := [];
    if s != [] && IsSpace(s[0]) {
      var rest := s[1..];
      var b := TrimStartSpec(rest);
      a := [s[0]] + b;
      assert s == [s[0]] + rest;
      Assoc([s[0]], b, TrimStart(rest));
    }
  }

  lemma {:induction false} TrimEndSpec(s: string) returns (b: string)
    ensures AllSpace(b) && s == TrimEnd(s) + b
    ensures TrimEnd(s) != [] ==> !IsSpace(TrimEnd(s)[|TrimEnd(s)| - 1])
  {
    b := [];
    if s != [] && IsSpace(s[|s| - 1]) {
      var front, last := s[..|s| - 1], s[|s| - 1];
      var a := TrimEndSpec(front);
      b := a + [last];
      assert s == front + [last];
      Assoc(TrimEnd(front), a, [last]);
    }
  }

  /** Trimming takes white space off both ends, all of it and nothing else. */
  lemma TrimSpec(s: string) returns (a: string, b: string)
    ensures AllSpace(a) && AllSpace(b) && s == a + TrimSpace(s) + b && IsTrimmed(TrimSpace(s))
  {
    a := TrimStartSpec(s);
    b := TrimEndSpec(TrimStart(s));
    assert TrimStart(s) == TrimSpace(s) + b;
    Assoc(a, TrimSpace(s), b);
    assert TrimSpace(s) != [] ==> TrimSpace(s)[0] == TrimStart(s)[0];
  }
}

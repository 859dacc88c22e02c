/** Sensor labels: the agent's snake-case canonical form, and the client's readable form of it. */
module SensorLabels {
  import opened Sequences
  import opened Text

  const SEPARATORS := [' ', '/', '\\', '-', '.', '(', ')', ':', ',']

  /** `strings.ReplaceAll` of one character by an underscore. */
  function ReplaceChar(s: string, ch: char): (r: string)
    ensures |r| == |s| && forall i :: 0 <= i < |r| ==> r[i] == if s[i] == ch then '_' else s[i]
  {
    seq(|s|, i requires 0 <= i < |s| => if s[i] == ch then '_' else s[i])
  }

  /** Lower case with every separator read as an underscore. */
  function Marked(s: string): (r: string)
    ensures |r| == |s|
    ensures forall i :: 0 <= i < |r| ==> r[i] == if LowerChar(s[i]) in SEPARATORS then '_' else LowerChar(s[i])
  {
    seq(|s|, i requires 0 <= i < |s| => if LowerChar(s[i]) in SEPARATORS then '_' else LowerChar(s[i]))
  }

  // ─── Underscores ───

  predicate HasPair(s: string) {
    |s| >= 2 && ((s[0] == '_' && s[1] == '_') || HasPair(s[1..]))
  }

  /** `strings.ReplaceAll(s, "__", "_")`: left to right, without overlaps. */
  function ReplacePairs(s: string): (r: string)
    ensures |r| <= |s| && (HasPair(s) ==> |r| < |s|)
  {
    if |s| >= 2 && s[0] == '_' && s[1] == '_' then "_" + ReplacePairs(s[2..])
    else if s == [] then []
    else [s[0]] + ReplacePairs(s[1..])
  }

  function TrimLeft(s: string): string {
    if s != [] && s[0] == '_' then TrimLeft(s[1..]) else s
  }

  function TrimRight(s: string): string {
    if s != [] && s[|s| - 1] == '_' then TrimRight(s[..|s| - 1]) else s
  }

  // ─── Words ───

  /** `split('_')`. */
  function Split(s: string): (r: seq<string>)
    ensures r != []
  {
    if s == [] then [[]]
    else if s[0] == '_' then [[]] + Split(s[1..])
    else [[s[0]] + Split(s[1..])[0]] + Split(s[1..])[1..]
  }

  /** `filter(Boolean)`. */
  function NonEmpty(ws: seq<string>): seq<string> {
    if ws == [] then [] else (if ws[0] == [] then [] else [ws[0]]) + NonEmpty(ws[1..])
  }

  function Join(ws: seq<string>, sep: char): string {
    if ws == [] then [] else if |ws| == 1 then ws[0] else ws[0] + [sep] + Join(ws[1..], sep)
  }

  function Words(s: string): seq<string> { NonEmpty(Split(s)) }

  /** The canonical label of a name: its words joined by single underscores. */
  function Sanitized(s: string): string { Join(Words(Marked(s)), '_') }

  // ─── The rewriting loop computes it ───

  lemma {:induction false} ReplacePairsKeepsWords(s: string)
    ensures Split(ReplacePairs(s))[0] == Split(s)[0]
    ensures NonEmpty(Split(ReplacePairs(s))[1..]) == NonEmpty(Split(s)[1..])
    ensures Words(ReplacePairs(s)) == Words(s)
    decreases |s|
  {
    if |s| >= 2 && s[0] == '_' && s[1] == '_' {
      var u := s[2..];
      ReplacePairsKeepsWords(u);
      assert ("_" + ReplacePairs(u))[1..] == ReplacePairs(u);
      assert s[1..][1..] == u;
      assert Split(s[1..]) == [[]] + Split(u);
      assert ([[]] + Split(u))[1..] == Split(u);
    } else if s != [] {
      var u := s[1..];
      ReplacePairsKeepsWords(u);
      assert ([s[0]] + ReplacePairs(u))[1..] == ReplacePairs(u);
    }
  }

  lemma {:induction false} TrimRightSkips(a: string, b: string)
    requires TrimRight(b) != []
    ensures TrimRight(a + b) == a + TrimRight(b)
    decreases |b|
  {
    assert (a + b)[|a + b| - 1] == b[|b| - 1];
    if b[|b| - 1] == '_' {
      TrimRightSkips(a, b[..|b| - 1]);
      assert (a + b)[..|a + b| - 1] == a + b[..|b| - 1];
    }
  }

  lemma {:induction false} TrimRightKeepsStart(s: string)
    requires s != [] && s[0] != '_'
    ensures TrimRight(s) != [] && TrimRight(s)[0] == s[0]
    decreases |s|
  {
    if s[|s| - 1] == '_' {
      TrimRightKeepsStart(s[..|s| - 1]);
    }
  }

  lemma TrimOfOne(s: string)
    requires |s| == 1 && s[0] != '_'
    ensures Join(Words(s), '_') == TrimRight(s)
  {
    assert s[1..] == [];
    assert Split(s)[0] == [s[0]] + [] == s;
    assert Split(s)[1..] == [];
    assert Words(s) == [s] + NonEmpty([]) == [s];
  }

  lemma TrimOfLetter(c: char, u: string)
    requires c != '_' && u != [] && u[0] != '_' && Join(Words(u), '_') == TrimRight(u)
    ensures Join(Words([c] + u), '_') == TrimRight([c] + u)
  {
    assert ([c] + u)[1..] == u;
    TrimRightKeepsStart(u);
    TrimRightSkips([c], u);
    JoinOneChar(c, Split(u)[0], NonEmpty(Split(u)[1..]));
  }

  lemma SplitAtGap(c: char, v: string)
    requires c != '_'
    ensures Words([c, '_'] + v) == [[c]] + Words(v)
  {
    var s, u := [c, '_'] + v, ['_'] + v;
    assert s[1..] == u && u[1..] == v;
    assert Split(u) == [[]] + Split(v);
    assert Split(u)[1..] == Split(v);
    assert Split(s)[0] == [c] + [] == [c];
    assert Split(s)[1..] == Split(v);
  }

  lemma JoinCons(w: string, ws: seq<string>)
    requires ws != []
    ensures Join([w] + ws, '_') == w + ['_'] + Join(ws, '_')
  {
    assert ([w] + ws)[1..] == ws;
  }

  lemma TrimOfGap(c: char, v: string)
    requires c != '_' && v != [] && v[0] != '_' && Join(Words(v), '_') == TrimRight(v)
    ensures Join(Words([c, '_'] + v), '_') == TrimRight([c, '_'] + v)
  {
    SplitAtGap(c, v);
    TrimRightKeepsStart(v);
    TrimRightSkips([c, '_'], v);
    JoinCons([c], Words(v));
    assert [c] + ['_'] == [c, '_'];
  }

  lemma TrimOfLastGap(c: char)
    requires c != '_'
    ensures Join(Words([c, '_']), '_') == TrimRight([c, '_'])
  {
    SplitAtGap(c, []);
    assert [c, '_'] + [] == [c, '_'] && [c, '_'][..1] == [c];
    assert Words([]) == [] && [[c]] + [] == [[c]];
  }

  lemma {:induction false} TrimIsJoin(s: string)
    requires !HasPair(s) && (s != [] ==> s[0] != '_')
    ensures Join(Words(s), '_') == TrimRight(s)
    decreases |s|
  {
    if |s| == 1 {
      TrimOfOne(s);
    } else if |s| >= 2 && s[1] != '_' {
      TrimIsJoin(s[1..]);
      TrimOfLetter(s[0], s[1..]);
      assert s == [s[0]] + s[1..];
    } else if |s| == 2 {
      TrimOfLastGap(s[0]);
      assert s == [s[0], '_'];
    } else if s != [] {
      assert HasPair(s[1..]) ==> HasPair(s);
      assert s[1..][1..] == s[2..] && s[1..][0] == '_';
      TrimIsJoin(s[2..]);
      TrimOfGap(s[0], s[2..]);
      assert s == [s[0], '_'] + s[2..];
    }
  }

  lemma JoinOneChar(c: char, head: string, rest: seq<string>)
    ensures Join([[c] + head] + rest, '_') == [c] + Join([head] + rest, '_')
  {
    assert ([[c] + head] + rest)[1..] == rest == ([head] + rest)[1..];
  }

  lemma NoPairTrim(s: string)
    requires !HasPair(s)
    ensures TrimRight(TrimLeft(s)) == Join(Words(s), '_')
  {
    if s != [] && s[0] == '_' {
      assert s[1..] != [] ==> s[1..][0] == s[1] != '_';
      assert !HasPair(s[1..]);
      assert TrimLeft(s) == s[1..];
      TrimIsJoin(s[1..]);
      assert Split(s)[0] == [] && Split(s)[1..] == Split(s[1..]);
      assert Words(s) == [] + Words(s[1..]) == Words(s[1..]);
    } else {
      TrimIsJoin(s);
    }
  }

  method SanitizeLabel(name: string) returns (canonical: string)
    ensures canonical == Sanitized(name)
  {
    var s := Lower(name);
    for k := 0 to |SEPARATORS|
      invariant |s| == |name|
      invariant forall i :: 0 <= i < |s| ==>
        s[i] == if LowerChar(name[i]) in SEPARATORS[..k] then '_' else LowerChar(name[i])
    {
      assert forall c: char :: (c in SEPARATORS[..k + 1]) <==> (c in SEPARATORS[..k] || c == SEPARATORS[k]);
      s := ReplaceChar(s, SEPARATORS[k]);
    }
    assert SEPARATORS[..|SEPARATORS|] == SEPARATORS;
    assert s == Marked(name);
    while HasPair(s)
      invariant Words(s) == Words(Marked(name))
      decreases |s|
    {
      ReplacePairsKeepsWords(s);
      s := ReplacePairs(s);
    }
    NoPairTrim(s);
    canonical := TrimRight(TrimLeft(s));
  }

  // ─── Canonical labels ───

  predicate IsCanonicalChar(c: char) {
    c != '_' && LowerChar(c) == c && c !in SEPARATORS
  }

  predicate IsWord(w: string) {
    w != [] && forall i :: 0 <= i < |w| ==> IsCanonicalChar(w[i])
  }

  predicate AreWords(ws: seq<string>) {
    forall i :: 0 <= i < |ws| ==> IsWord(ws[i])
  }

  /** Characters that `Marked` leaves alone, underscores included. */
  predicate IsPlain(s: string) {
    forall i :: 0 <= i < |s| ==> s[i] == '_' || IsCanonicalChar(s[i])
  }

  lemma MarkedIsPlain(s: string)
    ensures IsPlain(Marked(s))
    ensures IsPlain(s) ==> Marked(s) == s
  {
    assert '_' !in SEPARATORS && forall c :: c in SEPARATORS ==> LowerChar(c) == c;
    assert forall c: char :: LowerChar(LowerChar(c)) == LowerChar(c);
  }

  lemma {:induction false} SplitPlain(s: string)
    requires IsPlain(s)
    ensures forall i :: 0 <= i < |Split(s)| ==> Split(s)[i] == [] || IsWord(Split(s)[i])
  {
    if s != [] {
      SplitPlain(s[1..]);
      if s[0] != '_' {
        assert Split(s)[0][0] == s[0];
        assert Split(s)[0][1..] == Split(s[1..])[0];
      }
    }
  }

  lemma {:induction false} NonEmptyWords(ws: seq<string>)
    requires forall i :: 0 <= i < |ws| ==> ws[i] == [] || IsWord(ws[i])
    ensures AreWords(NonEmpty(ws))
    ensures AreWords(ws) ==> NonEmpty(ws) == ws
  {
    if ws != [] {
      NonEmptyWords(ws[1..]);
      assert ws == [ws[0]] + ws[1..];
      assert AreWords(ws) ==> AreWords(ws[1..]);
    }
  }

  lemma {:induction false} SplitWordThen(w: string, rest: string)
    requires IsWord(w) || w == []
    ensures Split(w + ['_'] + rest) == [w] + Split(rest)
    ensures Split(w) == [w]
  {
    if w == [] {
      assert (w + ['_'] + rest)[1..] == rest;
    } else {
      assert w[0] != '_';
      assert IsWord(w[1..]) || w[1..] == [];
      SplitWordThen(w[1..], rest);
      assert (w + ['_'] + rest)[1..] == w[1..] + ['_'] + rest;
      assert [w[0]] + w[1..] == w;
    }
  }

  /** Splitting undoes joining. */
  lemma {:induction false} SplitUndoesJoin(ws: seq<string>)
    requires ws != [] && AreWords(ws)
    ensures Split(Join(ws, '_')) == ws
  {
    SplitWordThen(ws[0], Join(ws[1..], '_'));
    if |ws| == 1 {
      assert ws == [ws[0]];
    } else {
      assert AreWords(ws[1..]);
      SplitUndoesJoin(ws[1..]);
      assert ws == [ws[0]] + ws[1..];
    }
  }

  /** And joining undoes splitting, for every text. */
  lemma {:induction false} JoinUndoesSplit(s: string)
    ensures Join(Split(s), '_') == s
  {
    if s != [] {
      JoinUndoesSplit(s[1..]);
      var parts := Split(s[1..]);
      if s[0] == '_' {
        assert ([[]] + parts)[1..] == parts;
      } else {
        assert parts == [parts[0]] + parts[1..];
        JoinOneChar(s[0], parts[0], parts[1..]);
      }
    }
  }

  /** Every label is a sequence of words joined by underscores. */
  lemma LabelWords(name: string)
    ensures AreWords(Words(Marked(name)))
  {
    MarkedIsPlain(name);
    SplitPlain(Marked(name));
    NonEmptyWords(Split(Marked(name)));
  }

  lemma {:induction false} JoinIsPlain(ws: seq<string>)
    requires AreWords(ws)
    ensures IsPlain(Join(ws, '_'))
  {
    if |ws| > 1 {
      JoinIsPlain(ws[1..]);
    }
  }

  /** In a canonical, non-empty label no piece between underscores is empty: the client's filter removes nothing. */
  lemma FilterRemovesNothing(name: string)
    requires Sanitized(name) != []
    ensures Words(Sanitized(name)) == Split(Sanitized(name)) == Words(Marked(name))
  {
    LabelWords(name);
    SplitUndoesJoin(Words(Marked(name)));
    NonEmptyWords(Words(Marked(name)));
  }

  lemma JoinedWordsAreCanonical(ws: seq<string>)
    requires ws != [] && AreWords(ws)
    ensures Sanitized(Join(ws, '_')) == Join(ws, '_')
  {
    JoinIsPlain(ws);
    MarkedIsPlain(Join(ws, '_'));
    SplitUndoesJoin(ws);
    NonEmptyWords(ws);
  }

  /** Canonical form is a fixed point. */
  lemma SanitizingTwiceIsOnce(name: string)
    ensures Sanitized(Sanitized(name)) == Sanitized(name)
  {
    LabelWords(name);
    JoinIsPlain(Words(Marked(name)));
    MarkedIsPlain(Sanitized(name));
    if Sanitized(name) != [] {
      FilterRemovesNothing(name);
    }
  }

  lemma {:induction false} WordHasNoPair(w: string, rest: string)
    requires IsWord(w) && !HasPair(rest) && rest != [] && rest[0] != '_'
    ensures !HasPair(w) && !HasPair(w + ['_'] + rest)
  {
    var whole := w + ['_'] + rest;
    assert w[0] != '_';
    if |w| == 1 {
      assert whole[1..] == ['_'] + rest && (['_'] + rest)[1..] == rest;
    } else {
      assert IsWord(w[1..]);
      WordHasNoPair(w[1..], rest);
      assert whole[1..] == w[1..] + ['_'] + rest;
    }
  }

  lemma {:induction false} JoinHasNoPair(ws: seq<string>)
    requires AreWords(ws)
    ensures !HasPair(Join(ws, '_'))
    ensures ws != [] ==> Join(ws, '_') != [] && Join(ws, '_')[0] != '_' && Join(ws, '_')[|Join(ws, '_')| - 1] != '_'
  {
    if |ws| == 1 {
      WordHasNoPair(ws[0], "x");
    } else if ws != [] {
      assert AreWords(ws[1..]);
      JoinHasNoPair(ws[1..]);
      WordHasNoPair(ws[0], Join(ws[1..], '_'));
    }
  }

  /** A canonical label never has a doubled, leading or trailing underscore. */
  lemma LabelHasNoStrayUnderscore(name: string)
    ensures var s := Sanitized(name);
      !HasPair(s) && (s != [] ==> s[0] != '_' && s[|s| - 1] != '_')
  {
    LabelWords(name);
    JoinHasNoPair(Words(Marked(name)));
  }

  // ─── What is in a label ───

  /** The characters that carry the name: all but the nine separators and the underscore. */
  predicate IsLetter(c: char) {
    c !in {' ', '/', '\\', '-', '.', '(', ')', ':', ',', '_'}
  }

  function LettersOf(s: string): string {
    if s == [] then [] else (if IsLetter(s[0]) then [s[0]] else []) + LettersOf(s[1..])
  }

  lemma {:induction false} LettersConcat(a: string, b: string)
    ensures LettersOf(a + b) == LettersOf(a) + LettersOf(b)
  {
    if a == [] {
      assert a + b == b;
    } else {
      LettersConcat(a[1..], b);
      assert (a + b)[1..] == a[1..] + b;
      Assoc(if IsLetter(a[0]) then [a[0]] else [], LettersOf(a[1..]), LettersOf(b));
    }
  }

  lemma {:induction false} LettersOfMarked(s: string)
    ensures LettersOf(Marked(s)) == LettersOf(Lower(s))
  {
    if s != [] {
      LettersOfMarked(s[1..]);
      assert Marked(s)[1..] == Marked(s[1..]) && Lower(s)[1..] == Lower(s[1..]);
    }
  }

  function Flat(ws: seq<string>): string {
    if ws == [] then [] else ws[0] + Flat(ws[1..])
  }

  lemma {:induction false} LettersOfJoin(ws: seq<string>)
    ensures LettersOf(Join(ws, '_')) == LettersOf(Flat(ws))
  {
    if |ws| == 1 {
      assert ws[0] + [] == ws[0];
    } else if ws != [] {
      LettersOfJoin(ws[1..]);
      LettersConcat(ws[0] + ['_'], Join(ws[1..], '_'));
      LettersConcat(ws[0], ['_']);
      LettersConcat(ws[0], Flat(ws[1..]));
      assert LettersOf(['_']) == [] && LettersOf(ws[0]) + [] == LettersOf(ws[0]);
    }
  }

  lemma {:induction false} FlatOfNonEmpty(ws: seq<string>)
    ensures Flat(NonEmpty(ws)) == Flat(ws)
  {
    if ws != [] {
      FlatOfNonEmpty(ws[1..]);
      if ws[0] == [] {
        assert [] + NonEmpty(ws[1..]) == NonEmpty(ws[1..]) && [] + Flat(ws[1..]) == Flat(ws[1..]);
      }
    }
  }

  /** A label is the name in lower case, all its characters in order, with underscores in place of separators. */
  lemma LabelKeepsLetters(name: string)
    ensures LettersOf(Sanitized(name)) == LettersOf(Lower(name))
  {
    var parts := Split(Marked(name));
    LettersOfJoin(NonEmpty(parts));
    FlatOfNonEmpty(parts);
    LettersOfJoin(parts);
    JoinUndoesSplit(Marked(name));
    LettersOfMarked(name);
  }

  /** In a label there is no capital letter and none of the nine separators. */
  lemma LabelCharacters(name: string, i: nat)
    requires i < |Sanitized(name)|
    ensures !('A' <= Sanitized(name)[i] <= 'Z')
    ensures Sanitized(name)[i] !in {' ', '/', '\\', '-', '.', '(', ')', ':', ','}
  {
    LabelWords(name);
    JoinIsPlain(Words(Marked(name)));
  }

  /** Lower and upper case of the 26 letters; every other character stays. */
  lemma CaseOfLetters(c: char)
    ensures 'A' <= c <= 'Z' ==> LowerChar(c) as int - 'a' as int == c as int - 'A' as int
    ensures 'a' <= c <= 'z' ==> UpperChar(c) as int - 'A' as int == c as int - 'a' as int
    ensures !('A' <= c <= 'Z') ==> LowerChar(c) == c
    ensures !('a' <= c <= 'z') ==> UpperChar(c) == c
  {}
}

/** The client's readable form of a sensor key. */
module SensorNames {
  import opened Wrappers
  import opened Sequences
  import opened SensorLabels
  import opened Text

  const ACRONYMS := {
    "cpu", "gpu", "vrm", "soc", "nvme", "ssd", "hdd", "pcie", "rtx", "gtx", "rx", "vddcr", "ccd",
    "nvidia", "amd", "asus", "rog", "msi", "mib"
  }

  function TitleWord(word: string): (r: string)
    requires word != []
    ensures r != []
  {
    if word[0] == '#' then word
    else if '0' <= word[0] <= '9' then word
    else if Lower(word) in ACRONYMS then Upper(word)
    else [UpperChar(word[0])] + word[1..]
  }

  function TitleWords(words: seq<string>): (r: seq<string>)
    requires forall i :: 0 <= i < |words| ==> words[i] != []
    ensures |r| == |words| && forall i :: 0 <= i < |r| ==> r[i] == TitleWord(words[i])
  {
    seq(|words|, i requires 0 <= i < |words| => TitleWord(words[i]))
  }

  lemma {:induction false} FilteredAreNonEmpty(ws: seq<string>)
    ensures forall i :: 0 <= i < |NonEmpty(ws)| ==> NonEmpty(ws)[i] != []
  {
    if ws != [] {
      FilteredAreNonEmpty(ws[1..]);
    }
  }

  function ToTitleCase(snake: string): string {
    FilteredAreNonEmpty(Split(snake));
    Join(TitleWords(NonEmpty(Split(snake))), ' ')
  }

  predicate StartsWith(s: string, prefix: string) {
    prefix <= s
  }

  const CHIP_PREFIXES: seq<(string, string)> := [
    ("coretemp", "CPU"), ("k10temp", "CPU"), ("zenpower", "CPU"), ("acpitz", "System"), ("nvme", "NVMe"),
    ("it87", "Board"), ("nct", "Board"), ("w83", "Board"), ("radeon", "GPU"), ("amdgpu", "GPU"), ("nouveau", "GPU")
  ]

  function ChipContext(name: string, prefixes: seq<(string, string)>): Option<string> {
    if prefixes == [] then None
    else if StartsWith(name, prefixes[0].0) then Some(prefixes[0].1)
    else ChipContext(name, prefixes[1..])
  }

  function PrettifySensorLabel(raw: string): string {
    if StartsWith(raw, "lhm_") then ToTitleCase(raw[4..])
    else if StartsWith(raw, "drive_") then ToTitleCase(raw[6..])
    else if StartsWith(raw, "gpu_") then ToTitleCase(raw[4..])
    else if StartsWith(raw, "asus_") then "ASUS " + ToTitleCase(raw[5..])
    else ChipLabel(raw)
  }

  function ChipLabel(raw: string): string {
    var chip := Before(raw, ' ');
    var sensor := if |chip| < |raw| then raw[|chip| + 1..] else [];
    var context := ChipContext(Lower(Before(chip, '-')), CHIP_PREFIXES);
    if sensor != [] then
      if context.Some? then context.value + " \U{2013} " + sensor else sensor
    else if context.Some? then context.value
    else ToTitleCase(ReplaceChar(raw, '-'))
  }

  // ─── The readable form loses nothing ───

  lemma TitleWordUndone(w: string)
    requires IsWord(w)
    ensures Marked(TitleWord(w)) == w
  {
    var t := TitleWord(w);
    forall i | 0 <= i < |w| ensures Marked(t)[i] == w[i] {
      CharUndone(w[i]);
      assert t[i] == w[i] || t[i] == UpperChar(w[i]);
    }
  }

  lemma CharUndone(c: char)
    requires IsCanonicalChar(c)
    ensures LowerChar(UpperChar(c)) == c && LowerChar(c) == c && c !in SEPARATORS
  {}

  lemma {:induction false} MarkedJoin(ws: seq<string>, titles: seq<string>)
    requires |ws| == |titles| && forall i :: 0 <= i < |ws| ==> Marked(titles[i]) == ws[i]
    ensures Marked(Join(titles, ' ')) == Join(ws, '_')
  {
    if |ws| > 1 {
      MarkedJoin(ws[1..], titles[1..]);
      MarkedConcat(titles[0] + [' '], Join(titles[1..], ' '));
      MarkedConcat(titles[0], [' ']);
      assert Marked([' ']) == ['_'];
    }
  }

  lemma MarkedConcat(a: string, b: string)
    ensures Marked(a + b) == Marked(a) + Marked(b)
  {}

  /** Canonicalising the title-cased form of any plain text gives back its words, joined by underscores. */
  lemma TitleCaseKeepsWords(s: string)
    requires IsPlain(s)
    ensures Marked(ToTitleCase(s)) == Join(Words(s), '_')
    ensures Sanitized(ToTitleCase(s)) == Join(Words(s), '_')
  {
    SplitPlain(s);
    NonEmptyWords(Split(s));
    FilteredAreNonEmpty(Split(s));
    var ws := Words(s);
    var titles := TitleWords(ws);
    forall i | 0 <= i < |ws| ensures Marked(titles[i]) == ws[i] {
      assert IsWord(ws[i]);
      TitleWordUndone(ws[i]);
    }
    MarkedJoin(ws, titles);
    if ws != [] {
      SplitUndoesJoin(ws);
      NonEmptyWords(ws);
    }
  }

  /** For every name: the readable form of its label determines the label. */
  lemma PrettyRoundTrip(name: string)
    ensures Sanitized(ToTitleCase(Sanitized(name))) == Sanitized(name)
  {
    LabelWords(name);
    JoinIsPlain(Words(Marked(name)));
    TitleCaseKeepsWords(Sanitized(name));
    if Sanitized(name) != [] {
      FilterRemovesNothing(name);
    }
  }

  lemma WordsOfConcat(a: string, b: string)
    ensures Words(a + ['_'] + b) == Words(a) + Words(b)
  {
    SplitOfConcat(a, b);
    NonEmptyConcat(Split(a), Split(b));
  }

  lemma SplitOfCons(c: char, u: string)
    ensures Split([c] + u) == if c == '_' then [[]] + Split(u) else [[c] + Split(u)[0]] + Split(u)[1..]
  {
    assert ([c] + u)[1..] == u;
  }

  lemma HeadOfConcat(c: char, first: seq<string>, second: seq<string>, both: seq<string>)
    requires first != [] && both == first + second
    ensures [[c] + both[0]] + both[1..] == ([[c] + first[0]] + first[1..]) + second
  {
    assert both[0] == first[0] && both[1..] == first[1..] + second;
    Assoc([[c] + first[0]], first[1..], second);
  }

  lemma SplitOfConcatStep(c: char, u: string, b: string)
    requires Split(u + ['_'] + b) == Split(u) + Split(b)
    ensures Split([c] + (u + ['_'] + b)) == Split([c] + u) + Split(b)
  {
    SplitOfCons(c, u);
    SplitOfCons(c, u + ['_'] + b);
    if c == '_' {
      Assoc([[]], Split(u), Split(b));
    } else {
      HeadOfConcat(c, Split(u), Split(b), Split(u + ['_'] + b));
    }
  }

  lemma {:induction false} SplitOfConcat(a: string, b: string)
    ensures Split(a + ['_'] + b) == Split(a) + Split(b)
  {
    if a == [] {
      assert a + ['_'] + b == ['_'] + b;
      SplitOfCons('_', b);
    } else {
      SplitOfConcat(a[1..], b);
      SplitOfConcatStep(a[0], a[1..], b);
      assert a == [a[0]] + a[1..];
      AssocFour([a[0]], a[1..], ['_'], b);
    }
  }

  lemma {:induction false} NonEmptyConcat(a: seq<string>, b: seq<string>)
    ensures NonEmpty(a + b) == NonEmpty(a) + NonEmpty(b)
  {
    if a == [] {
      assert a + b == b;
    } else {
      NonEmptyConcat(a[1..], b);
      assert (a + b)[1..] == a[1..] + b;
      Assoc(if a[0] == [] then [] else [a[0]], NonEmpty(a[1..]), NonEmpty(b));
    }
  }

  /** `snake` is plain text with the words of `text`. */
  ghost predicate Spells(snake: string, text: string) {
    IsPlain(snake) && Words(snake) == Words(Marked(text))
  }

  lemma SanitizedSpells(name: string)
    ensures Spells(Sanitized(name), name)
  {
    LabelWords(name);
    JoinIsPlain(Words(Marked(name)));
    if Sanitized(name) != [] {
      FilterRemovesNothing(name);
    } else if Words(Marked(name)) != [] {
      JoinHasNoPair(Words(Marked(name)));
    }
  }

  lemma PlainSpellsItself(s: string)
    requires IsPlain(s)
    ensures Spells(s, s)
  {
    MarkedIsPlain(s);
  }

  lemma SpellsPair(a: string, x: string, b: string, y: string)
    requires Spells(a, x) && Spells(b, y)
    ensures Spells(a + ['_'] + b, x + ['_'] + y)
  {
    WordsOfConcat(a, b);
    MarkedConcat(x + ['_'], y);
    MarkedConcat(x, ['_']);
    assert Marked(['_']) == ['_'];
    WordsOfConcat(Marked(x), Marked(y));
  }

  /** Canonicalising what the user sees of a LibreHardwareMonitor key gives the canonical form of what it spells. */
  lemma HardwareKeyRoundTrip(snake: string, text: string)
    requires Spells(snake, text)
    ensures Sanitized(PrettifySensorLabel("lhm_" + snake)) == Sanitized(text)
  {
    assert ("lhm_" + snake)[4..] == snake && "lhm_" <= "lhm_" + snake;
    TitleCaseKeepsWords(snake);
  }

  // ─── Chip keys ───

  lemma {:induction false} FirstMatch(name: string, prefixes: seq<(string, string)>)
    ensures match ChipContext(name, prefixes)
      case Some(c) => exists i :: 0 <= i < |prefixes| && prefixes[i].0 <= name && prefixes[i].1 == c
      case None => forall i :: 0 <= i < |prefixes| ==> !(prefixes[i].0 <= name)
  {
    if prefixes != [] && !(prefixes[0].0 <= name) {
      FirstMatch(name, prefixes[1..]);
      assert forall i :: 0 < i < |prefixes| ==> prefixes[i] == prefixes[1..][i - 1];
    }
  }

  lemma PrefixesDiffer()
    ensures forall i :: 0 <= i < |CHIP_PREFIXES| ==> |CHIP_PREFIXES[i].0| >= 2
    ensures forall i, j :: 0 <= i < j < |CHIP_PREFIXES| ==>
      CHIP_PREFIXES[i].0[0] != CHIP_PREFIXES[j].0[0] || CHIP_PREFIXES[i].0[1] != CHIP_PREFIXES[j].0[1]
  {}

  /** The table's order does not matter: a chip has a context iff some entry's prefix fits, and only one can. */
  lemma ChipContextIff(name: string, context: string)
    ensures ChipContext(name, CHIP_PREFIXES) == Some(context) <==>
      exists i :: 0 <= i < |CHIP_PREFIXES| && CHIP_PREFIXES[i].0 <= name && CHIP_PREFIXES[i].1 == context
  {
    FirstMatch(name, CHIP_PREFIXES);
    PrefixesDiffer();
  }

  lemma ContextOfChip(chip: string, sensor: string)
    requires ' ' !in chip
    ensures Before(chip + [' '] + sensor, ' ') == chip
  {
    CutAtMark(chip, sensor, ' ');
  }

  /** The key comes from the chip list of the operating system. */
  predicate IsChipKey(raw: string) {
    !("lhm_" <= raw) && !("drive_" <= raw) && !("gpu_" <= raw) && !("asus_" <= raw)
  }

  /** The text before the first hyphen, in lower case, decides the context of a chip. */
  ghost predicate IsContextOf(context: string, chip: string) {
    exists i :: 0 <= i < |CHIP_PREFIXES| &&
      CHIP_PREFIXES[i].0 <= Lower(Before(chip, '-')) && CHIP_PREFIXES[i].1 == context
  }

  /** A chip's sensor is shown under its own name, unchanged, after the context of its chip if there is one. */
  lemma ChipSensorIsShown(chip: string, sensor: string, context: string)
    requires ' ' !in chip && sensor != [] && IsChipKey(chip + [' '] + sensor)
    ensures IsContextOf(context, chip) ==>
      PrettifySensorLabel(chip + [' '] + sensor) == context + " \U{2013} " + sensor
    ensures (forall c :: !IsContextOf(c, chip)) ==> PrettifySensorLabel(chip + [' '] + sensor) == sensor
  {
    ContextOfChip(chip, sensor);
    assert (chip + [' '] + sensor)[|chip| + 1..] == sensor;
    ContextIsFound(chip, context);
  }

  lemma ContextIsFound(chip: string, context: string)
    ensures IsContextOf(context, chip) <==> ChipContext(Lower(Before(chip, '-')), CHIP_PREFIXES) == Some(context)
    ensures (forall c :: !IsContextOf(c, chip)) <==> ChipContext(Lower(Before(chip, '-')), CHIP_PREFIXES) == None
  {
    ChipContextIff(Lower(Before(chip, '-')), context);
    var found := ChipContext(Lower(Before(chip, '-')), CHIP_PREFIXES);
    if found.Some? {
      ChipContextIff(Lower(Before(chip, '-')), found.value);
      assert IsContextOf(found.value, chip);
    } else {
      forall c ensures !IsContextOf(c, chip) {
        ChipContextIff(Lower(Before(chip, '-')), c);
      }
    }
  }

  /** A chip without a sensor name is shown as its context, or else in title case, hyphens separating words. */
  lemma ChipAloneIsShown(chip: string, context: string)
    requires ' ' !in chip && IsChipKey(chip)
    ensures IsContextOf(context, chip) ==> PrettifySensorLabel(chip) == context
    ensures (forall c :: !IsContextOf(c, chip)) ==> PrettifySensorLabel(chip) == ToTitleCase(ReplaceChar(chip, '-'))
  {
    CutCounts(chip, ' ');
    FirstIndexOfAbsent(chip, ' ');
    ContextIsFound(chip, context);
  }

  // ─── Capitals ───

  predicate IsLower(c: char) { 'a' <= c <= 'z' }

  /** How a word is shown: only its case changes, and how. */
  ghost predicate IsShownAs(w: string, t: string) {
    && |t| == |w| > 0 && Lower(t) == Lower(w)
    && if w[0] == '#' || '0' <= w[0] <= '9' then
         t == w
       else if Lower(w) in ACRONYMS then
         forall i :: 0 <= i < |t| ==> !IsLower(t[i])
       else
         !IsLower(t[0]) && t[1..] == w[1..]
  }

  lemma TitleWordSpec(w: string)
    requires w != []
    ensures IsShownAs(w, TitleWord(w))
  {
    var t := TitleWord(w);
    assert |t| == |w| && forall i :: 0 <= i < |w| ==> t[i] == w[i] || t[i] == UpperChar(w[i]);
    forall i | 0 <= i < |w| ensures Lower(t)[i] == Lower(w)[i] {
      assert LowerChar(UpperChar(w[i])) == LowerChar(w[i]);
    }
  }

  /** In title case every non-empty word is shown, in order, separated by single blanks. */
  lemma TitleCaseSpec(s: string) returns (titles: seq<string>)
    ensures ToTitleCase(s) == Join(titles, ' ') && |titles| == |Words(s)|
    ensures forall i :: 0 <= i < |titles| ==> IsShownAs(Words(s)[i], titles[i])
  {
    FilteredAreNonEmpty(Split(s));
    titles := TitleWords(Words(s));
    forall i | 0 <= i < |titles| ensures IsShownAs(Words(s)[i], titles[i]) {
      TitleWordSpec(Words(s)[i]);
    }
  }

  // ─── The other tags ───

  lemma TagOfKey(tag: string, snake: string, raw: string)
    requires tag != [] && raw == tag + snake
    ensures tag <= raw && raw[|tag|..] == snake && raw[0] == tag[0]
  {}

  lemma PrettyOfDrive(snake: string, raw: string)
    requires raw == "drive_" + snake
    ensures PrettifySensorLabel(raw) == ToTitleCase(snake)
  {
    TagOfKey("drive_", snake, raw);
  }

  lemma PrettyOfGpu(snake: string, raw: string)
    requires raw == "gpu_" + snake
    ensures PrettifySensorLabel(raw) == ToTitleCase(snake)
  {
    TagOfKey("gpu_", snake, raw);
  }

  lemma PrettyOfAsus(snake: string, raw: string)
    requires raw == "asus_" + snake
    ensures PrettifySensorLabel(raw) == "ASUS " + ToTitleCase(snake)
  {
    TagOfKey("asus_", snake, raw);
  }

  lemma WordsOfPretty(snake: string, text: string)
    requires Spells(snake, text)
    ensures Words(Marked(ToTitleCase(snake))) == Words(Marked(text))
  {
    TitleCaseKeepsWords(snake);
    SplitPlain(snake);
    NonEmptyWords(Split(snake));
    var ws := Words(snake);
    if ws != [] {
      SplitUndoesJoin(ws);
      NonEmptyWords(ws);
    }
  }

  /** One more word in front, shown with a blank after it. */
  lemma WordInFront(word: string, shownWord: string, shown: string, text: string)
    requires Words(Marked(shown)) == Words(Marked(text)) && Marked(shownWord) == word + ['_'] && Marked(word) == word
    ensures Sanitized(shownWord + shown) == Sanitized(word + ['_'] + text)
  {
    MarkedConcat(shownWord, shown);
    WordsOfConcat(word, Marked(shown));
    MarkedConcat(word + ['_'], text);
    MarkedConcat(word, ['_']);
    assert Marked(['_']) == ['_'];
    WordsOfConcat(word, Marked(text));
  }

  lemma AsusWord(word: string, shownWord: string)
    requires word == "asus" && shownWord == "ASUS "
    ensures Marked(shownWord) == word + ['_'] && Marked(word) == word
  {}

  /** The round trip for drives and graphics cards, and for ASUS sensors, whose tag is shown as a word. */
  lemma TaggedKeysRoundTrip(snake: string, text: string, drive: string, gpu: string, asus: string)
    requires Spells(snake, text)
    requires drive == "drive_" + snake && gpu == "gpu_" + snake && asus == "asus_" + snake
    ensures Sanitized(PrettifySensorLabel(drive)) == Sanitized(text)
    ensures Sanitized(PrettifySensorLabel(gpu)) == Sanitized(text)
    ensures Sanitized(PrettifySensorLabel(asus)) == Sanitized("asus" + ['_'] + text)
  {
    PrettyOfDrive(snake, drive);
    PrettyOfGpu(snake, gpu);
    PrettyOfAsus(snake, asus);
    WordsOfPretty(snake, text);
    AsusWord("asus", "ASUS ");
    WordInFront("asus", "ASUS ", ToTitleCase(snake), text);
  }
}

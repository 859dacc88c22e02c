/** What the agent makes of LibreHardwareMonitor output: labelled temperatures and a dense list of core clocks. */
module LhmReadings {
  import opened Wrappers
  import opened Sequences
  import opened SensorLabels
  import opened SensorNames
  import opened LhmText
  import opened Text

  datatype TempSensor = TempSensor(name: string, celsius: real)

  function Round(x: real): real { (x + 0.5).Floor as real }

  function BaseLabel(hardware: string, sensor: string): string {
    if hardware != [] then "lhm_" + Sanitized(hardware) + "_" + Sanitized(sensor) else "lhm_" + Sanitized(sensor)
  }

  predicate IsTemperature(r: Reading) {
    r.Temperature? && 0.0 < r.value <= 150.0
  }

  predicate IsClock(r: Reading) {
    r.CoreClock? && r.core.Some? && 0.0 < r.value < 10000.0
  }

  /** The temperatures kept, in order. */
  function Kept(readings: seq<Reading>): (r: seq<Reading>)
    ensures forall i :: 0 <= i < |r| ==> IsTemperature(r[i])
  {
    if readings == [] then []
    else (if IsTemperature(readings[0]) then [readings[0]] else []) + Kept(readings[1..])
  }

  function Bases(readings: seq<Reading>): (r: seq<string>)
    requires forall i :: 0 <= i < |readings| ==> readings[i].Temperature?
    ensures |r| == |readings|
    ensures forall i :: 0 <= i < |r| ==> r[i] == BaseLabel(readings[i].hardware, readings[i].sensor)
  {
    seq(|readings|, i requires 0 <= i < |readings| => BaseLabel(readings[i].hardware, readings[i].sensor))
  }

  /** One decimal. */
  function Tenths(x: real): real { Round(x * 10.0) / 10.0 }

  /** Rounded to the nearest whole number, halves up. */
  lemma RoundSpec(x: real) returns (k: int)
    ensures Round(x) == k as real && Round(x) - 0.5 <= x < Round(x) + 0.5
  {
    k := (x + 0.5).Floor;
  }

  /** A multiple of a tenth, at most 0.05 away. */
  lemma TenthsSpec(x: real) returns (k: int)
    ensures Tenths(x) * 10.0 == k as real && Tenths(x) - 0.05 <= x < Tenths(x) + 0.05
  {
    k := RoundSpec(x * 10.0);
    assert Tenths(x) * 10.0 == Round(x * 10.0);
  }

  /** Kept are exactly the temperatures above 0 and up to 150 degrees. */
  lemma {:induction false} KeptIff(readings: seq<Reading>, r: Reading)
    ensures r in Kept(readings) <==> r in readings && r.Temperature? && 0.0 < r.value && r.value <= 150.0
  {
    if readings != [] {
      KeptIff(readings[1..], r);
      assert readings == [readings[0]] + readings[1..];
    }
  }

  lemma {:induction false} KeptOfOneMore(readings: seq<Reading>, x: Reading)
    ensures Kept(readings + [x]) == Kept(readings) + if IsTemperature(x) then [x] else []
  {
    if readings == [] {
      assert [x][1..] == [];
    } else {
      KeptOfOneMore(readings[1..], x);
      assert (readings + [x])[1..] == readings[1..] + [x];
    }
  }

  function Numbered(base: string, before: nat): string {
    if before == 0 then base else base + ['_'] + Decimal(before + 1)
  }

  /** Each base label, numbered from its second occurrence on. */
  function Labels(bases: seq<string>): (r: seq<string>)
    ensures |r| == |bases|
    ensures forall i :: 0 <= i < |r| ==> r[i] == Numbered(bases[i], multiset(bases[..i])[bases[i]])
  {
    seq(|bases|, i requires 0 <= i < |bases| => Numbered(bases[i], multiset(bases[..i])[bases[i]]))
  }

  // ─── Are the labels distinct? ───

  lemma CountGrows(s: seq<string>, i: nat, j: nat)
    requires i < j <= |s|
    ensures multiset(s[..i])[s[i]] < multiset(s[..j])[s[i]] <= multiset(s)[s[i]]
  {
    assert s[..j] == s[..i] + [s[i]] + s[i + 1..j];
    CountConcat(s[..i] + [s[i]], s[i + 1..j], s[i]);
    CountConcat(s[..i], [s[i]], s[i]);
    assert s == s[..j] + s[j..];
    CountConcat(s[..j], s[j..], s[i]);
  }

  lemma {:induction false} NthOccurrence(s: seq<string>, x: string, n: nat) returns (m: nat)
    requires 1 <= n <= multiset(s)[x]
    ensures m < |s| && s[m] == x && multiset(s[..m])[x] == n - 1
  {
    var front, last := s[..|s| - 1], s[|s| - 1];
    assert s == front + [last];
    CountConcat(front, [last], x);
    if n <= multiset(front)[x] {
      m := NthOccurrence(front, x, n);
      assert s[..m] == front[..m];
    } else {
      m := |s| - 1;
    }
  }

  /** Some base label is the text of another one's numbered label. */
  ghost predicate Clash(bases: seq<string>) {
    exists base: string, n: nat :: 2 <= n <= multiset(bases)[base] && base + ['_'] + Decimal(n) in bases
  }

  lemma NumberedInjective(a: string, m: nat, b: string, n: nat)
    requires Numbered(a, m) == Numbered(b, n)
    ensures (m == 0) == (n == 0) ==> a == b && m == n
  {
    if m > 0 && n > 0 {
      assert '_' !in Decimal(m + 1) && '_' !in Decimal(n + 1);
      CutAtLast(a, Decimal(m + 1), b, Decimal(n + 1), '_');
      DecimalInjective(m + 1, n + 1);
    }
  }

  /** A repeated base label of number n + 1, if that text is a base label too, is a clash. */
  lemma ClashAt(bases: seq<string>, i: nat, text: string)
    requires i < |bases| && text in bases
    requires multiset(bases[..i])[bases[i]] > 0
    requires text == bases[i] + ['_'] + Decimal(multiset(bases[..i])[bases[i]] + 1)
    ensures Clash(bases)
  {
    CountGrows(bases, i, |bases|);
    var n := multiset(bases[..i])[bases[i]] + 1;
    assert 2 <= n <= multiset(bases)[bases[i]] && bases[i] + ['_'] + Decimal(n) in bases;
  }

  lemma EqualLabelsClash(bases: seq<string>, i: nat, j: nat)
    requires i < j < |bases| && Labels(bases)[i] == Labels(bases)[j]
    ensures Clash(bases)
  {
    var m, n := multiset(bases[..i])[bases[i]], multiset(bases[..j])[bases[j]];
    NumberedInjective(bases[i], m, bases[j], n);
    if m == 0 && n > 0 {
      ClashAt(bases, j, bases[i]);
    } else if m > 0 && n == 0 {
      ClashAt(bases, i, bases[j]);
    } else {
      CountGrows(bases, i, j);
      assert false;
    }
  }

  /** The repeated label's number and the base label spelled like it are two entries with one text. */
  lemma ClashRepeatsLabel(bases: seq<string>, base: string, n: nat, text: string)
    requires 2 <= n <= multiset(bases)[base] && text == Numbered(base, n - 1) != base
    requires 1 <= multiset(bases)[text]
    ensures !NoDuplicates(Labels(bases))
  {
    var m := NthOccurrence(bases, base, n);
    var f := NthOccurrence(bases, text, 1);
    TwoEqual(Labels(bases), m, f);
  }

  lemma NumberedIsLonger(base: string, n: nat)
    requires n > 0
    ensures |Numbered(base, n)| > |base|
  {}

  lemma TwoEqual(s: seq<string>, i: nat, j: nat)
    requires i < |s| && j < |s| && i != j && s[i] == s[j]
    ensures !NoDuplicates(s)
  {
    assert s[if i < j then i else j] == s[if i < j then j else i];
  }

  /** The numbered labels are pairwise distinct exactly if no base label looks like another one's numbered label. */
  lemma LabelsDistinctIff(bases: seq<string>)
    ensures NoDuplicates(Labels(bases)) <==> !Clash(bases)
  {
    if Clash(bases) {
      var base: string, n: nat :| 2 <= n <= multiset(bases)[base] && base + ['_'] + Decimal(n) in bases;
      NumberedIsLonger(base, n - 1);
      ClashRepeatsLabel(bases, base, n, Numbered(base, n - 1));
    } else if !NoDuplicates(Labels(bases)) {
      var i, j :| 0 <= i < j < |bases| && Labels(bases)[i] == Labels(bases)[j];
      EqualLabelsClash(bases, i, j);
    }
  }

  lemma LetterIsCanonical(letter: string)
    requires |letter| == 1 && 'a' <= letter[0] <= 'z'
    ensures Sanitized(letter) == letter
  {
    JoinedWordsAreCanonical([letter]);
  }

  lemma PairIsCanonical(a: string, b: string, name: string, snake: string)
    requires IsWord(a) && IsWord(b) && name == a + [' '] + b && snake == a + ['_'] + b
    ensures Sanitized(name) == snake
  {
    JoinedWordsAreCanonical([a, b]);
    assert [a, b][1..] == [b];
    MarkedIsPlain(snake);
    assert IsPlain(snake);
    assert Marked(name) == snake;
  }

  lemma LabelsOfThree(x: string, y: string)
    requires x != y
    ensures Labels([x, x, y]) == [x, x + ['_'] + Decimal(2), y]
  {
    var bases := [x, x, y];
    assert bases[..0] == [] && bases[..1] == [x] && bases[..2] == [x, x];
  }

  lemma KeptOfThree(t: Reading, u: Reading, v: Reading)
    requires IsTemperature(t) && IsTemperature(u) && IsTemperature(v)
    ensures Kept([t, u, v]) == [t, u, v]
  {
    assert [t, u, v][1..] == [u, v] && [u, v][1..] == [v] && [v][1..] == [];
    assert Kept([v]) == [v];
    assert Kept([u, v]) == [u, v];
  }

  lemma BasesOfThree(t: Reading, u: Reading, v: Reading, x: string, y: string)
    requires t.Temperature? && u.Temperature? && v.Temperature?
    requires BaseLabel(t.hardware, t.sensor) == BaseLabel(u.hardware, u.sensor) == x
    requires BaseLabel(v.hardware, v.sensor) == y
    ensures Bases([t, u, v]) == [x, x, y]
  {}

  lemma LabelExamples(hardware: string, sensor: string, second: string)
    requires hardware == "a" && sensor == "t" && second == "t 2"
    ensures BaseLabel(hardware, sensor) == "lhm_a_t" && BaseLabel(hardware, second) == "lhm_a_t_2"
  {
    LetterIsCanonical(hardware);
    LetterIsCanonical(sensor);
    PairIsCanonical(sensor, "2", second, "t_2");
  }

  lemma ThirdIsNumbered(t: Reading, u: Reading, v: Reading, x: string, y: string)
    requires IsTemperature(t) && IsTemperature(u) && IsTemperature(v)
    requires BaseLabel(t.hardware, t.sensor) == BaseLabel(u.hardware, u.sensor) == x
    requires BaseLabel(v.hardware, v.sensor) == y == x + ['_'] + Decimal(2)
    ensures Labels(Bases(Kept([t, u, v]))) == [x, y, y]
  {
    KeptOfThree(t, u, v);
    BasesOfThree(t, u, v, x, y);
    LabelsOfThree(x, y);
  }

  /** Two sensors of one name and one really called "t 2": an output for which two labels come out equal. */
  lemma NumberCanClash(t: Reading, u: Reading, v: Reading, x: string, y: string)
    requires t == Temperature("a", "t", 40.0) && u == Temperature("a", "t", 41.0) && v == Temperature("a", "t 2", 42.0)
    requires x == "lhm_a_t" && y == "lhm_a_t_2"
    ensures Labels(Bases(Kept([t, u, v]))) == [x, y, y]
  {
    LabelExamples(t.hardware, t.sensor, v.sensor);
    NumberedExample(x, y);
    ThirdIsNumbered(t, u, v, x, y);
  }

  lemma NumberedExample(x: string, y: string)
    requires x == "lhm_a_t" && y == "lhm_a_t_2"
    ensures y == x + ['_'] + Decimal(2)
  {
    assert Decimal(2) == "2";
  }

  ghost function Names(sensors: seq<TempSensor>): (r: seq<string>)
    ensures |r| == |sensors| && forall i :: 0 <= i < |r| ==> r[i] == sensors[i].name
  {
    seq(|sensors|, i requires 0 <= i < |sensors| => sensors[i].name)
  }

  lemma SameTexts(a: seq<string>, b: seq<string>)
    requires |a| == |b| && forall i :: 0 <= i < |a| ==> a[i] == b[i]
    ensures a == b
  {}

  /** For every output of the script: the reported names are distinct exactly if the base labels kept do not clash. */
  lemma ReportedNamesDistinctIff(sensors: seq<TempSensor>, readings: seq<Reading>)
    requires AreSensorsOf(sensors, Kept(readings))
    ensures NoDuplicates(Names(sensors)) <==> !Clash(Bases(Kept(readings)))
  {
    LabelsDistinctIff(Bases(Kept(readings)));
    SameTexts(Names(sensors), Labels(Bases(Kept(readings))));
  }

  // ─── From the sensor to the screen ───

  /** What a label spells: hardware, if it is named, then sensor, then number, if it is repeated. */
  function Spelled(hardware: string, sensor: string, before: nat): string {
    (if hardware != [] then hardware + ['_'] + sensor else sensor)
    + if before == 0 then [] else ['_'] + Decimal(before + 1)
  }

  function SnakeLabel(hardware: string, sensor: string): string {
    if hardware != [] then Sanitized(hardware) + ['_'] + Sanitized(sensor) else Sanitized(sensor)
  }

  lemma SnakeSpells(hardware: string, sensor: string)
    ensures BaseLabel(hardware, sensor) == "lhm_" + SnakeLabel(hardware, sensor)
    ensures Spells(SnakeLabel(hardware, sensor), Spelled(hardware, sensor, 0))
  {
    SanitizedSpells(hardware);
    SanitizedSpells(sensor);
    AssocFour("lhm_", Sanitized(hardware), "_", Sanitized(sensor));
    if hardware != [] {
      SpellsPair(Sanitized(hardware), hardware, Sanitized(sensor), sensor);
      assert hardware + ['_'] + sensor + [] == hardware + ['_'] + sensor;
    } else {
      assert sensor + [] == sensor;
    }
  }

  lemma DecimalSpellsItself(n: nat)
    ensures Spells(Decimal(n), Decimal(n))
  {
    forall i | 0 <= i < |Decimal(n)| ensures IsCanonicalChar(Decimal(n)[i]) {
      assert Decimal(n)[i] in Decimal(n);
    }
    PlainSpellsItself(Decimal(n));
  }

  lemma SpelledWithNumber(hardware: string, sensor: string, before: nat)
    requires before > 0
    ensures Spelled(hardware, sensor, before) == Spelled(hardware, sensor, 0) + ['_'] + Decimal(before + 1)
  {
    var name := if hardware != [] then hardware + ['_'] + sensor else sensor;
    assert name + [] == name;
    Assoc(name, ['_'], Decimal(before + 1));
  }

  /** For every label the agent can make: canonicalising what the client shows for it gives back all that it spells. */
  lemma LabelRoundTrip(hardware: string, sensor: string, before: nat)
    ensures Sanitized(PrettifySensorLabel(Numbered(BaseLabel(hardware, sensor), before)))
         == Sanitized(Spelled(hardware, sensor, before))
  {
    var snake, text := SnakeLabel(hardware, sensor), Spelled(hardware, sensor, 0);
    SnakeSpells(hardware, sensor);
    if before == 0 {
      HardwareKeyRoundTrip(snake, text);
    } else {
      var number := Decimal(before + 1);
      DecimalSpellsItself(before + 1);
      SpellsPair(snake, text, number, number);
      HardwareKeyRoundTrip(snake + ['_'] + number, text + ['_'] + number);
      AssocFour("lhm_", snake, ['_'], number);
      SpelledWithNumber(hardware, sensor, before);
    }
  }

  /** So the name of every sensor reported survives its display. */
  lemma ReportedNamesRoundTrip(sensors: seq<TempSensor>, kept: seq<Reading>, i: nat)
    requires forall k :: 0 <= k < |kept| ==> kept[k].Temperature?
    requires AreSensorsOf(sensors, kept) && i < |sensors|
    ensures Sanitized(PrettifySensorLabel(sensors[i].name))
         == Sanitized(Spelled(kept[i].hardware, kept[i].sensor, multiset(Bases(kept)[..i])[Bases(kept)[i]]))
  {
    LabelRoundTrip(kept[i].hardware, kept[i].sensor, multiset(Bases(kept)[..i])[Bases(kept)[i]]);
  }

  // ─── Core clocks ───

  function Max(a: real, b: real): real { if a < b then b else a }

  /** The highest rounded clock read for a core. */
  function PeakClock(readings: seq<Reading>, core: nat): Option<real> {
    if readings == [] then None
    else
      var front, last := readings[..|readings| - 1], readings[|readings| - 1];
      var before := PeakClock(front, core);
      if IsClock(last) && last.core.value == core then
        Some(if before.Some? then Max(before.value, Round(last.value)) else Round(last.value))
      else
        before
  }

  /** `clocks` starts at the lowest core read, ends at the highest, and has 0 for cores not read. */
  ghost predicate IsDense(clocks: seq<real>, readings: seq<Reading>) {
    if forall core: nat :: PeakClock(readings, core) == None then clocks == []
    else exists low: nat :: IsDenseFrom(clocks, readings, low)
  }

  ghost predicate IsDenseFrom(clocks: seq<real>, readings: seq<Reading>, low: nat) {
    && clocks != []
    && PeakClock(readings, low).Some? && PeakClock(readings, low + |clocks| - 1).Some?
    && forall core: nat ::
      var peak := PeakClock(readings, core);
      if low <= core < low + |clocks| then clocks[core - low] == (if peak.Some? then peak.value else 0.0)
      else peak == None
  }

  /** A clock read for `core`: above 0 and below 10000 MHz. */
  ghost predicate IsClockOf(r: Reading, core: nat) {
    r.CoreClock? && r.core == Some(core) && 0.0 < r.value && r.value < 10000.0
  }

  /** The peak of a core is the highest of its clocks, rounded; a core without one has none. */
  lemma {:induction false} PeakIsMaximum(readings: seq<Reading>, core: nat)
    ensures PeakClock(readings, core) == None <==> forall r :: r in readings ==> !IsClockOf(r, core)
    ensures forall r :: r in readings && IsClockOf(r, core) && PeakClock(readings, core).Some? ==>
      Round(r.value) <= PeakClock(readings, core).value
    ensures PeakClock(readings, core).Some? ==>
      exists r :: r in readings && IsClockOf(r, core) && Round(r.value) == PeakClock(readings, core).value
    decreases |readings|
  {
    if readings != [] {
      var front, last := readings[..|readings| - 1], readings[|readings| - 1];
      PeakIsMaximum(front, core);
      assert readings == front + [last];
      assert last in readings && forall r :: r in readings <==> r in front || r == last;
    }
  }

  lemma RoundOfWhole(k: int)
    ensures Round(k as real) == k as real
  {
    var f := (k as real + 0.5).Floor;
    assert f as real <= k as real + 0.5 < f as real + 1.0;
    assert (k + 1) as real == k as real + 1.0 && (k - 1) as real == k as real - 1.0;
    assert (k - 1) as real < f as real < (k + 1) as real;
    assert k - 1 < f < k + 1;
  }

  lemma RoundMonotone(x: real, y: real)
    requires x <= y
    ensures Round(x) <= Round(y)
  {
    var a, b := (x + 0.5).Floor, (y + 0.5).Floor;
    assert a as real <= x + 0.5 && y + 0.5 < b as real + 1.0;
    assert (b + 1) as real == b as real + 1.0;
    assert a < b + 1;
  }

  lemma {:induction false} PeakIsWhole(readings: seq<Reading>, core: nat)
    ensures PeakClock(readings, core).Some? ==>
      Round(PeakClock(readings, core).value) == PeakClock(readings, core).value
  {
    if readings != [] {
      PeakIsWhole(readings[..|readings| - 1], core);
      RoundOfWhole((readings[|readings| - 1].value + 0.5).Floor);
    }
  }

  lemma PeakOfOneMore(readings: seq<Reading>, r: Reading, core: nat)
    ensures PeakClock(readings + [r], core) ==
      var before := PeakClock(readings, core);
      if !IsClock(r) || r.core.value != core then before
      else if before.Some? && r.value <= before.value then before
      else Some(Round(r.value))
  {
    assert (readings + [r])[..|readings|] == readings;
    PeakIsWhole(readings, core);
    var before := PeakClock(readings, core);
    if before.Some? {
      if r.value <= before.value {
        RoundMonotone(r.value, before.value);
      } else {
        RoundMonotone(before.value, r.value);
      }
    }
  }

  lemma LabelsOfOneMore(bases: seq<string>, base: string)
    ensures Labels(bases + [base]) == Labels(bases) + [Numbered(base, multiset(bases)[base])]
  {
    var all := bases + [base];
    assert all[..|bases|] == bases;
    forall i | 0 <= i < |bases| ensures Labels(all)[i] == Labels(bases)[i] {
      assert all[..i] == bases[..i];
    }
  }

  /** The temperature sensors reported for the readings kept. */
  ghost predicate AreSensorsOf(sensors: seq<TempSensor>, kept: seq<Reading>)
    requires forall i :: 0 <= i < |kept| ==> kept[i].Temperature?
  {
    && |sensors| == |kept|
    && forall i :: 0 <= i < |sensors| ==>
      sensors[i] == TempSensor(Labels(Bases(kept))[i], Tenths(kept[i].value))
  }

  /** Every value reported is that of a reading above 0 and up to 150 degrees, to the nearest tenth. */
  lemma ReportedValues(sensors: seq<TempSensor>, readings: seq<Reading>, i: nat) returns (r: Reading, k: int)
    requires AreSensorsOf(sensors, Kept(readings)) && i < |sensors|
    ensures r in readings && r.Temperature? && 0.0 < r.value <= 150.0
    ensures sensors[i].celsius * 10.0 == k as real
    ensures sensors[i].celsius - 0.05 <= r.value < sensors[i].celsius + 0.05
  {
    r := Kept(readings)[i];
    KeptIff(readings, r);
    k := TenthsSpec(r.value);
  }

  lemma SensorsOfOneMore(sensors: seq<TempSensor>, kept: seq<Reading>, r: Reading, n: nat)
    requires (forall i :: 0 <= i < |kept| ==> kept[i].Temperature?) && r.Temperature?
    requires AreSensorsOf(sensors, kept)
    requires n == multiset(Bases(kept))[BaseLabel(r.hardware, r.sensor)]
    ensures AreSensorsOf(
      sensors + [TempSensor(Numbered(BaseLabel(r.hardware, r.sensor), n), Tenths(r.value))], kept + [r])
  {
    var base := BaseLabel(r.hardware, r.sensor);
    assert Bases(kept + [r]) == Bases(kept) + [base];
    LabelsOfOneMore(Bases(kept), base);
  }

  ghost predicate CountsOf(seen: map<string, nat>, bases: seq<string>) {
    forall b :: multiset(bases)[b] == if b in seen then seen[b] else 0
  }

  ghost predicate PeaksOf(coreClocks: map<nat, real>, readings: seq<Reading>) {
    forall core: nat :: PeakClock(readings, core) == if core in coreClocks then Some(coreClocks[core]) else None
  }

  lemma CountsStep(seen: map<string, nat>, bases: seq<string>, base: string, n: nat)
    requires CountsOf(seen, bases) && n == if base in seen then seen[base] else 0
    ensures CountsOf(seen[base := n + 1], bases + [base])
  {
    forall b ensures multiset(bases + [base])[b] == multiset(bases)[b] + if b == base then 1 else 0 {
      CountConcat(bases, [base], b);
    }
  }

  lemma TemperatureStep(sensors: seq<TempSensor>, seen: map<string, nat>, kept: seq<Reading>, r: Reading, n: nat)
    requires (forall i :: 0 <= i < |kept| ==> kept[i].Temperature?) && r.Temperature?
    requires AreSensorsOf(sensors, kept) && CountsOf(seen, Bases(kept))
    requires var base := BaseLabel(r.hardware, r.sensor); n == if base in seen then seen[base] else 0
    ensures var base := BaseLabel(r.hardware, r.sensor);
      && AreSensorsOf(sensors + [TempSensor(Numbered(base, n), Tenths(r.value))], kept + [r])
      && CountsOf(seen[base := n + 1], Bases(kept + [r]))
  {
    var base := BaseLabel(r.hardware, r.sensor);
    SensorsOfOneMore(sensors, kept, r, n);
    assert Bases(kept + [r]) == Bases(kept) + [base];
    CountsStep(seen, Bases(kept), base, n);
  }

  lemma ClockStep(coreClocks: map<nat, real>, readings: seq<Reading>, r: Reading)
    requires PeaksOf(coreClocks, readings)
    ensures PeaksOf(
      if IsClock(r) && (r.core.value in coreClocks ==> r.value > coreClocks[r.core.value])
      then coreClocks[r.core.value := Round(r.value)] else coreClocks, readings + [r])
  {
    forall core: nat {
      PeakOfOneMore(readings, r, core);
    }
  }

  /** What the loop has made of the readings so far. */
  ghost predicate Made(
      sensors: seq<TempSensor>, seen: map<string, nat>, coreClocks: map<nat, real>, readings: seq<Reading>)
  {
    && AreSensorsOf(sensors, Kept(readings)) && CountsOf(seen, Bases(Kept(readings)))
    && PeaksOf(coreClocks, readings)
  }

  lemma SkippedStep(
      sensors: seq<TempSensor>, seen: map<string, nat>, coreClocks: map<nat, real>, readings: seq<Reading>, r: Reading)
    requires Made(sensors, seen, coreClocks, readings) && !IsTemperature(r) && !IsClock(r)
    ensures Made(sensors, seen, coreClocks, readings + [r])
  {
    KeptOfOneMore(readings, r);
    ClockStep(coreClocks, readings, r);
    assert Kept(readings) + [] == Kept(readings);
  }

  lemma KeptStep(
      sensors: seq<TempSensor>, seen: map<string, nat>, coreClocks: map<nat, real>, readings: seq<Reading>, r: Reading,
      base: string, n: nat)
    requires Made(sensors, seen, coreClocks, readings) && IsTemperature(r)
    requires base == BaseLabel(r.hardware, r.sensor) && n == if base in seen then seen[base] else 0
    ensures Made(
      sensors + [TempSensor(Numbered(base, n), Tenths(r.value))], seen[base := n + 1], coreClocks, readings + [r])
  {
    KeptOfOneMore(readings, r);
    TemperatureStep(sensors, seen, Kept(readings), r, n);
    ClockStep(coreClocks, readings, r);
  }

  lemma PeakStep(
      sensors: seq<TempSensor>, seen: map<string, nat>, coreClocks: map<nat, real>, readings: seq<Reading>, r: Reading)
    requires Made(sensors, seen, coreClocks, readings) && IsClock(r)
    ensures Made(sensors, seen,
      if r.core.value in coreClocks && r.value <= coreClocks[r.core.value] then coreClocks
      else coreClocks[r.core.value := Round(r.value)], readings + [r])
  {
    KeptOfOneMore(readings, r);
    ClockStep(coreClocks, readings, r);
    assert Kept(readings) + [] == Kept(readings);
  }

  /** `parseFloat` reads a number, as far as it is one. */
  method ParseLHMOutputAll(raw: string, parseFloat: string -> Option<real>)
    returns (sensors: seq<TempSensor>, clockSlice: seq<real>)
    ensures AreSensorsOf(sensors, Kept(ReadingsOf(raw, parseFloat)))
    ensures IsDense(clockSlice, ReadingsOf(raw, parseFloat))
  {
    sensors := [];
    var seen: map<string, nat> := map[];
    var coreClocks: map<nat, real> := map[];
    var lines := Lines(TrimSpace(raw));
    ghost var readings := [];
    for k := 0 to |lines|
      invariant readings == Readings(lines[..k], parseFloat)
      invariant Made(sensors, seen, coreClocks, readings)
    {
      var parsed := ParseLine(lines[k], parseFloat);
      ghost var before := readings;
      readings := readings + AsList(parsed);
      ReadingsStep(lines, k, parseFloat);
      if parsed == None {
        assert readings == before;
        continue;
      }
      var r := parsed.value;
      if r.value <= 0.0 {
        SkippedStep(sensors, seen, coreClocks, before, r);
        continue;
      }
      if r.Temperature? {
        if r.value > 150.0 {
          SkippedStep(sensors, seen, coreClocks, before, r);
          continue;
        }
        var base := BaseLabel(r.hardware, r.sensor);
        var n := if base in seen then seen[base] else 0;
        KeptStep(sensors, seen, coreClocks, before, r, base, n);
        seen := seen[base := n + 1];
        sensors := sensors + [TempSensor(Numbered(base, n), Tenths(r.value))];
      } else {
        if r.core.Some? && r.value < 10000.0 {
          var idx := r.core.value;
          PeakStep(sensors, seen, coreClocks, before, r);
          if idx !in coreClocks || r.value > coreClocks[idx] {
            coreClocks := coreClocks[idx := Round(r.value)];
          }
        } else {
          SkippedStep(sensors, seen, coreClocks, before, r);
        }
      }
    }
    assert lines[..|lines|] == lines;
    clockSlice := DenseSlice(coreClocks, readings);
  }

  method DenseSlice(coreClocks: map<nat, real>, ghost readings: seq<Reading>) returns (clockSlice: seq<real>)
    requires PeaksOf(coreClocks, readings)
    ensures IsDense(clockSlice, readings)
  {
    if coreClocks == map[] {
      return [];
    }
    var low, high := Bounds(coreClocks.Keys);
    clockSlice := Fill(coreClocks, low, high);
    assert PeakClock(readings, low).Some?;
    assert IsDenseFrom(clockSlice, readings, low);
  }

  method Bounds(cores: set<nat>) returns (low: nat, high: nat)
    requires cores != {}
    ensures low in cores && high in cores && forall c :: c in cores ==> low <= c <= high
  {
    var first :| first in cores;
    low, high := first, first;
    var todo := cores - {first};
    while todo != {}
      invariant todo <= cores && low in cores && high in cores
      invariant forall c :: c in cores && c !in todo ==> low <= c <= high
      decreases todo
    {
      var c :| c in todo;
      todo := todo - {c};
      if c < low {
        low := c;
      }
      if c > high {
        high := c;
      }
    }
  }

  method Fill(coreClocks: map<nat, real>, low: nat, high: nat) returns (slice: seq<real>)
    requires low <= high && forall c :: c in coreClocks ==> low <= c <= high
    ensures |slice| == high - low + 1
    ensures forall i :: 0 <= i < |slice| ==> slice[i] == if low + i in coreClocks then coreClocks[low + i] else 0.0
  {
    slice := seq(high - low + 1, _ => 0.0);
    var todo := coreClocks.Keys;
    while todo != {}
      invariant todo <= coreClocks.Keys && |slice| == high - low + 1
      invariant forall i :: 0 <= i < |slice| ==>
        slice[i] == if low + i in coreClocks && low + i !in todo then coreClocks[low + i] else 0.0
      decreases todo
    {
      var idx :| idx in todo;
      todo := todo - {idx};
      slice := slice[idx - low := coreClocks[idx]];
    }
  }
}

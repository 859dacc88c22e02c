/** The text that the sensor script writes, one reading a line, and how the agent reads it. */
module LhmText {
  import opened Wrappers
  import opened Sequences
  import opened Text

  /** One well-formed output line; `core` is the index read from a "Core #N" name, if there is one. */
  datatype Reading =
    | Temperature(hardware: string, sensor: string, value: real)
    | CoreClock(core: Option<nat>, value: real)

  // ─── Reading ───

  /** `SplitN(s, "|", 3)`, if it has three parts. */
  function Fields(s: string): Option<(string, string, string)> {
    var first := Cut(s, '|');
    if first == None then None
    else
      var second := Cut(first.value.1, '|');
      if second == None then None else Some((first.value.0, second.value.0, second.value.1))
  }

  const CORE_PREFIX := "Core #"

  const MAX_INT := 0x7FFF_FFFF_FFFF_FFFF

  /** `Atoi` on 64-bit integers: an optional sign and digits, in range. */
  function Atoi(s: string): Option<int> {
    var negative := s != [] && s[0] == '-';
    var digits := if s != [] && (s[0] == '-' || s[0] == '+') then s[1..] else s;
    if !AllDigits(digits) then None
    else
      var size: int := DigitsValue(digits);
      var n := if negative then -size else size;
      if -MAX_INT - 1 <= n <= MAX_INT then Some(n) else None
  }

  function CoreIndex(sensor: string): Option<nat> {
    var n := Atoi(if CORE_PREFIX <= sensor then sensor[|CORE_PREFIX|..] else sensor);
    if n.Some? && n.value >= 0 then
      var index: nat := n.value;
      Some(index)
    else
      None
  }

  function ParseFields(
      isClock: bool, fields: Option<(string, string, string)>, parseFloat: string -> Option<real>): Option<Reading>
  {
    if fields == None then None
    else
      var (hardware, sensor, number) := fields.value;
      var value := parseFloat(TrimSpace(number));
      if value == None then None
      else if isClock then Some(CoreClock(CoreIndex(TrimSpace(sensor)), value.value))
      else Some(Temperature(TrimSpace(hardware), TrimSpace(sensor), value.value))
  }

  /** A line without a known prefix counts as a temperature. */
  function ParseLine(line: string, parseFloat: string -> Option<real>): Option<Reading> {
    var text := TrimSpace(line);
    ParseFields("C|" <= text, Fields(if "T|" <= text || "C|" <= text then text[2..] else text), parseFloat)
  }

  function Parser(parseFloat: string -> Option<real>): string -> Option<Reading> {
    (line: string) => ParseLine(line, parseFloat)
  }

  function Readings(lines: seq<string>, parseFloat: string -> Option<real>): seq<Reading> {
    Collect(lines, Parser(parseFloat))
  }

  function ReadingsOf(raw: string, parseFloat: string -> Option<real>): seq<Reading> {
    Readings(Lines(TrimSpace(raw)), parseFloat)
  }

  lemma ReadingsStep(lines: seq<string>, k: nat, parseFloat: string -> Option<real>)
    requires k < |lines|
    ensures Readings(lines[..k + 1], parseFloat)
         == Readings(lines[..k], parseFloat) + AsList(ParseLine(lines[k], parseFloat))
  {
    assert lines[..k + 1] == lines[..k] + [lines[k]];
    CollectOfOneMore(lines[..k], lines[k], Parser(parseFloat));
  }

  // ─── What the script writes ───

  /** One sensor as the script sees it; `number` is the text of its value. */
  datatype Sensor = Sensor(isClock: bool, hardware: string, name: string, number: string)

  /** The field separator does not occur inside the names, and the number has no space around it. */
  predicate IsWritable(x: Sensor) {
    '|' !in x.hardware && '|' !in x.name && x.number != [] && IsTrimmed(x.number)
  }

  predicate IsOneLine(x: Sensor) {
    '\n' !in x.hardware && '\n' !in x.name && '\n' !in x.number
  }

  function Line(x: Sensor): string {
    (if x.isClock then "C|" else "T|") + (x.hardware + ['|'] + (x.name + ['|'] + x.number))
  }

  /** Every line ends as Windows ends lines. */
  function Written(sensors: seq<Sensor>): string {
    if sensors == [] then [] else Line(sensors[0]) + "\r\n" + Written(sensors[1..])
  }

  /** The reading a sensor stands for, if its number can be read. */
  function Meaning(x: Sensor, parseFloat: string -> Option<real>): Option<Reading> {
    var value := parseFloat(x.number);
    if value == None then None
    else if x.isClock then Some(CoreClock(CoreIndex(TrimSpace(x.name)), value.value))
    else Some(Temperature(TrimSpace(x.hardware), TrimSpace(x.name), value.value))
  }

  function Meant(parseFloat: string -> Option<real>): Sensor -> Option<Reading> {
    (x: Sensor) => Meaning(x, parseFloat)
  }

  function Meanings(sensors: seq<Sensor>, parseFloat: string -> Option<real>): seq<Reading> {
    Collect(sensors, Meant(parseFloat))
  }

  // ─── Reading undoes writing ───

  lemma LineEnds(x: Sensor)
    requires x.number != [] && IsTrimmed(x.number)
    ensures Line(x) != [] && IsTrimmed(Line(x))
    ensures IsOneLine(x) ==> '\n' !in Line(x)
  {
    var line := Line(x);
    assert line[|line| - 1] == x.number[|x.number| - 1];
    assert line[0] == if x.isClock then 'C' else 'T';
  }

  lemma LineTag(x: Sensor)
    ensures "C|" <= Line(x) <==> x.isClock
    ensures "T|" <= Line(x) <==> !x.isClock
    ensures Line(x)[2..] == x.hardware + ['|'] + (x.name + ['|'] + x.number)
  {
    assert Line(x)[0] == if x.isClock then 'C' else 'T';
    assert Line(x)[..2] == if x.isClock then "C|" else "T|";
  }

  lemma FieldsOfLine(x: Sensor)
    requires IsWritable(x)
    ensures Fields(x.hardware + ['|'] + (x.name + ['|'] + x.number)) == Some((x.hardware, x.name, x.number))
  {
    CutAtMark(x.hardware, x.name + ['|'] + x.number, '|');
    CutAtMark(x.name, x.number, '|');
  }

  /** What a line is read as depends on how its text after the tag splits into fields. */
  lemma ParseOfLine(x: Sensor, end: string, rest: string, parseFloat: string -> Option<real>)
    requires x.number != [] && IsTrimmed(x.number) && AllSpace(end)
    requires rest == x.hardware + ['|'] + (x.name + ['|'] + x.number)
    ensures ParseLine(Line(x) + end, parseFloat) == ParseFields(x.isClock, Fields(rest), parseFloat)
  {
    LineEnds(x);
    TrimIgnoresEnd(Line(x), end);
    LineTag(x);
  }

  /** A line is read as what it was written for, with or without the carriage return. */
  lemma LineRoundTrip(x: Sensor, end: string, parseFloat: string -> Option<real>)
    requires IsWritable(x) && AllSpace(end)
    ensures ParseLine(Line(x) + end, parseFloat) == Meaning(x, parseFloat)
  {
    ParseOfLine(x, end, x.hardware + ['|'] + (x.name + ['|'] + x.number), parseFloat);
    FieldsOfLine(x);
    TrimmedIsFixed(x.number);
  }

  lemma ThirdFieldCounts(s: string)
    requires multiset(s)['|'] >= 3
    ensures Fields(s).Some? && '|' in Fields(s).value.2
  {
    CutCounts(s, '|');
    CutCounts(Cut(s, '|').value.1, '|');
  }

  lemma SeparatorsOfLine(x: Sensor)
    requires '|' in x.hardware || '|' in x.name
    ensures multiset(x.hardware + ['|'] + (x.name + ['|'] + x.number))['|'] >= 3
  {
    CountConcat(x.hardware + ['|'], x.name + ['|'] + x.number, '|');
    CountConcat(x.hardware, ['|'], '|');
    CountConcat(x.name + ['|'], x.number, '|');
    CountConcat(x.name, ['|'], '|');
    assert '|' in x.hardware ==> multiset(x.hardware)['|'] >= 1;
    assert '|' in x.name ==> multiset(x.name)['|'] >= 1;
  }

  lemma NoNumberNoReading(
      isClock: bool, fields: Option<(string, string, string)>, parseFloat: string -> Option<real>)
    requires fields.Some? && '|' in fields.value.2
    requires forall text :: '|' in text ==> parseFloat(text) == None
    ensures ParseFields(isClock, fields, parseFloat) == None
  {
    TrimStartKeeps(fields.value.2, '|');
    TrimEndKeeps(TrimStart(fields.value.2), '|');
  }

  lemma SeparatorLosesReading(
      x: Sensor, end: string, rest: string, parseFloat: string -> Option<real>)
    requires x.number != [] && IsTrimmed(x.number) && AllSpace(end)
    requires rest == x.hardware + ['|'] + (x.name + ['|'] + x.number) && multiset(rest)['|'] >= 3
    requires forall text :: '|' in text ==> parseFloat(text) == None
    ensures ParseLine(Line(x) + end, parseFloat) == None
  {
    ParseOfLine(x, end, rest, parseFloat);
    ThirdFieldCounts(rest);
    NoNumberNoReading(x.isClock, Fields(rest), parseFloat);
  }

  /**
   * The script does not escape the separator: a line with a readable number is read as what it was written for
   * if and only if neither name contains it. Otherwise the reading is dropped, since `|` is in no number.
   */
  lemma LineIsReadIff(x: Sensor, end: string, parseFloat: string -> Option<real>)
    requires x.number != [] && IsTrimmed(x.number) && AllSpace(end) && parseFloat(x.number).Some?
    requires forall text :: '|' in text ==> parseFloat(text) == None
    ensures ParseLine(Line(x) + end, parseFloat) == Meaning(x, parseFloat) <==> '|' !in x.hardware && '|' !in x.name
    ensures '|' in x.hardware || '|' in x.name ==> ParseLine(Line(x) + end, parseFloat) == None
  {
    if '|' !in x.hardware && '|' !in x.name {
      LineRoundTrip(x, end, parseFloat);
    } else {
      SeparatorsOfLine(x);
      SeparatorLosesReading(x, end, x.hardware + ['|'] + (x.name + ['|'] + x.number), parseFloat);
    }
  }

  /** The output without its last line end. */
  function Body(sensors: seq<Sensor>): string
    requires sensors != []
  {
    if |sensors| == 1 then Line(sensors[0]) else Line(sensors[0]) + ['\r'] + ['\n'] + Body(sensors[1..])
  }

  lemma JoinedTrims(a: string, b: string)
    requires a != [] && IsTrimmed(a) && b != [] && IsTrimmed(b)
    ensures IsTrimmed(a + ['\r'] + ['\n'] + b)
  {}

  lemma {:induction false} BodyEnds(sensors: seq<Sensor>)
    requires sensors != [] && forall x :: x in sensors ==> IsWritable(x) && IsOneLine(x)
    ensures Body(sensors) != [] && IsTrimmed(Body(sensors))
  {
    assert sensors[0] in sensors;
    LineEnds(sensors[0]);
    if |sensors| > 1 {
      BodyEnds(sensors[1..]);
      JoinedTrims(Line(sensors[0]), Body(sensors[1..]));
    }
  }

  lemma {:induction false} WrittenIsBody(sensors: seq<Sensor>)
    requires sensors != []
    ensures Written(sensors) == Body(sensors) + "\r\n"
  {
    var line := Line(sensors[0]);
    if |sensors| > 1 {
      WrittenIsBody(sensors[1..]);
      Assoc(line, ['\r'], ['\n']);
      assert ['\r'] + ['\n'] == "\r\n";
      Assoc(line + "\r\n", Body(sensors[1..]), "\r\n");
    } else {
      assert Written(sensors[1..]) == [];
      assert line + "\r\n" + [] == line + "\r\n";
    }
  }

  lemma ReadingsCons(line: string, lines: seq<string>, parseFloat: string -> Option<real>)
    ensures Readings([line] + lines, parseFloat) == AsList(ParseLine(line, parseFloat)) + Readings(lines, parseFloat)
  {
    CollectCons(line, lines, Parser(parseFloat));
  }

  lemma MeaningsCons(x: Sensor, sensors: seq<Sensor>, parseFloat: string -> Option<real>)
    ensures Meanings([x] + sensors, parseFloat) == AsList(Meaning(x, parseFloat)) + Meanings(sensors, parseFloat)
  {
    CollectCons(x, sensors, Meant(parseFloat));
  }

  lemma LinesOfBody(x: Sensor, rest: seq<Sensor>, lines: seq<string>) returns (end: string)
    requires IsWritable(x) && IsOneLine(x)
    requires lines == if rest == [] then [] else Lines(Body(rest))
    ensures AllSpace(end) && Lines(Body([x] + rest)) == [Line(x) + end] + lines
  {
    LineEnds(x);
    if rest == [] {
      end := [];
      LinesOfOne(Line(x));
      assert Line(x) + [] == Line(x) && [Line(x)] + lines == [Line(x)];
    } else {
      end := ['\r'];
      assert ([x] + rest)[1..] == rest;
      LinesOfMore(Line(x) + ['\r'], Body(rest));
    }
  }

  lemma {:induction false} BodyRoundTrip(sensors: seq<Sensor>, parseFloat: string -> Option<real>)
    requires sensors != [] && forall x :: x in sensors ==> IsWritable(x) && IsOneLine(x)
    ensures Readings(Lines(Body(sensors)), parseFloat) == Meanings(sensors, parseFloat)
  {
    var x, rest := sensors[0], sensors[1..];
    var lines := if rest == [] then [] else Lines(Body(rest));
    if rest != [] {
      BodyRoundTrip(rest, parseFloat);
    }
    assert sensors == [x] + rest;
    var end := LinesOfBody(x, rest, lines);
    ReadingsCons(Line(x) + end, lines, parseFloat);
    LineRoundTrip(x, end, parseFloat);
    MeaningsCons(x, rest, parseFloat);
  }

  /** Whatever sensors the script writes, in whatever number, the agent reads exactly those, in order. */
  lemma OutputRoundTrip(sensors: seq<Sensor>, parseFloat: string -> Option<real>)
    requires forall x :: x in sensors ==> IsWritable(x) && IsOneLine(x)
    ensures ReadingsOf(Written(sensors), parseFloat) == Meanings(sensors, parseFloat)
  {
    if sensors == [] {
      LinesOfOne([]);
      assert Lines([]) == [[]] + [];
      ReadingsCons([], [], parseFloat);
    } else {
      BodyEnds(sensors);
      WrittenIsBody(sensors);
      TrimIgnoresEnd(Body(sensors), "\r\n");
      BodyRoundTrip(sensors, parseFloat);
    }
  }

  /** A line of two fields or fewer, or whose last field is no number, is skipped. */
  lemma OtherLinesAreSkipped(line: string, parseFloat: string -> Option<real>)
    requires multiset(TrimSpace(line))['|'] < 2 || forall text :: parseFloat(text) == None
    ensures ParseLine(line, parseFloat) == None
  {
    var text := TrimSpace(line);
    var rest := if "T|" <= text || "C|" <= text then text[2..] else text;
    if multiset(text)['|'] < 2 {
      FewerMarks(text, rest);
      CutCounts(rest, '|');
      if Cut(rest, '|').Some? {
        CutCounts(Cut(rest, '|').value.1, '|');
      }
    }
  }

  lemma FewerMarks(text: string, rest: string)
    requires rest == text || (|text| >= 2 && rest == text[2..])
    ensures multiset(rest)['|'] <= multiset(text)['|']
  {
    if rest != text {
      assert text == text[..2] + rest;
      CountConcat(text[..2], rest, '|');
    }
  }

  /** Three fields without a tag are read as a temperature. */
  lemma UntaggedIsTemperature(
      line: string, hardware: string, name: string, number: string, parseFloat: string -> Option<real>)
    requires TrimSpace(line) == hardware + ['|'] + (name + ['|'] + number)
    requires '|' !in hardware && '|' !in name && hardware != "T" && hardware != "C"
    ensures ParseLine(line, parseFloat) ==
      match parseFloat(TrimSpace(number))
      case None => None
      case Some(v) => Some(Temperature(TrimSpace(hardware), TrimSpace(name), v))
  {
    CutAtMark(hardware, name + ['|'] + number, '|');
    CutAtMark(name, number, '|');
    NoTag(hardware, name + ['|'] + number);
  }

  lemma NoTag(hardware: string, rest: string)
    requires '|' !in hardware && hardware != "T" && hardware != "C"
    ensures !("T|" <= hardware + ['|'] + rest) && !("C|" <= hardware + ['|'] + rest)
  {
    var text := hardware + ['|'] + rest;
    if |hardware| == 1 {
      assert text[0] == hardware[0] && hardware == [hardware[0]];
    } else if |hardware| >= 2 {
      assert text[1] == hardware[1] != '|';
    } else {
      assert text[0] == '|';
    }
  }

  /** What is read as a core: digits, with or without the prefix, after a plus sign or, for zero, a minus sign. */
  lemma CoreIndexIff(sensor: string, text: string, digits: string)
    requires text == if "Core #" <= sensor then sensor[6..] else sensor
    requires digits == if text != [] && text[0] in {'-', '+'} then text[1..] else text
    ensures CoreIndex(sensor).Some? <==>
      && AllDigits(digits) && DigitsValue(digits) <= 0x7FFF_FFFF_FFFF_FFFF
      && (text[0] == '-' ==> DigitsValue(digits) == 0)
    ensures CoreIndex(sensor).Some? ==> CoreIndex(sensor).value == DigitsValue(digits)
  {}

  /** Core names are read as their number. */
  lemma CoreIndexOfName(n: nat)
    requires n <= MAX_INT
    ensures CoreIndex("Core #" + Decimal(n)) == Some(n)
  {
    NumberOfDecimal(n);
    var digits := Decimal(n);
    assert (CORE_PREFIX + digits)[|CORE_PREFIX|..] == digits;
    assert digits[0] in digits;
    forall i | 0 <= i < |digits| ensures '0' <= digits[i] <= '9' {
      assert digits[i] in digits;
    }
    assert AllDigits(digits);
  }
}

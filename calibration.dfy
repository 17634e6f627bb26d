/**
 * The device calibration record (`calibrationData`) and the conversion of a
 * reading into a glucose value (`calc_glucose`). The file is an 8-line text;
 * line 4 names the channels, and the channel labelled "Glucose" selects one
 * column of lines 1, 5 and 7.
 */
module Calibration {
  import opened Outcomes

  const LineCount := 8
  /** The label searched for, quotes included, exactly as the file writes it. */
  const GlucoseLabel: string := "\"Glucose\""
  /** The field of line 7 that holds the reference temperature. */
  const ReferenceTemperatureField := 7

  /** What loading keeps: the two channel indices and three constants. */
  datatype Calib = Calib(
    glucosech: nat,
    subtractch: int,
    convconstant: real,
    tempconstant: real,
    defaulttemp: real)

  // ---------------------------------------------------------------------------
  // Text structure: lines and fields

  /** The position of the first c in s, or |s| when there is none. */
  function Find(s: string, c: char): (k: nat)
    ensures k <= |s|
    ensures k < |s| ==> s[k] == c
    ensures forall i :: 0 <= i < k ==> s[i] != c
    decreases |s|
  {
    if s == [] then 0
    else if s[0] == c then 0
    else 1 + Find(s[1..], c)
  }

  /** Python's `s.split(sep)` for a one-character separator. */
  function Split(s: string, sep: char): (parts: seq<string>)
    ensures |parts| >= 1
    ensures forall i :: 0 <= i < |parts| ==> sep !in parts[i]
    decreases |s|
  {
    var k := Find(s, sep);
    if k == |s| then [s]
    else [s[..k]] + Split(s[k + 1..], sep)
  }

  /** Python's `sep.join(parts)`. */
  function Join(parts: seq<string>, sep: char): string
    requires |parts| >= 1
  {
    if |parts| == 1 then parts[0] else parts[0] + [sep] + Join(parts[1..], sep)
  }

  /** Joining a part in front of at least one more puts the separator between them. */
  lemma JoinCons(a: string, rest: seq<string>, sep: char)
    requires |rest| >= 1
    ensures Join([a] + rest, sep) == a + [sep] + Join(rest, sep)
  {
    assert ([a] + rest)[1..] == rest;
  }

  /** Splitting loses nothing: joining the parts gives the text back. */
  lemma {:induction false} JoinSplit(s: string, sep: char)
    ensures Join(Split(s, sep), sep) == s
    decreases |s|
  {
    var k := Find(s, sep);
    if k < |s| {
      var rest := Split(s[k + 1..], sep);
      assert Split(s, sep) == [s[..k]] + rest;
      JoinCons(s[..k], rest, sep);
      JoinSplit(s[k + 1..], sep);
      assert s == s[..k] + [sep] + s[k + 1..];
    }
  }

  /** The last part of a split is the text's tail after its last separator. */
  lemma {:induction false} SplitLastEnds(s: string, sep: char)
    requires |s| > 0 && s[|s| - 1] != sep
    ensures var parts := Split(s, sep);
            var last := parts[|parts| - 1];
            |last| > 0 && last[|last| - 1] == s[|s| - 1]
    decreases |s|
  {
    var k := Find(s, sep);
    if k < |s| {
      SplitLastEnds(s[k + 1..], sep);
    }
  }

  /**
   * Python's `f.readlines()`: the text cut after every '\n', each line keeping
   * its '\n'; only the last line may lack one.
   */
  function ReadLines(text: string): (lines: seq<string>)
    ensures forall i :: 0 <= i < |lines| ==> |lines[i]| > 0
    ensures forall i :: 0 <= i < |lines| - 1 ==> lines[i][|lines[i]| - 1] == '\n'
    ensures forall i, j :: 0 <= i < |lines| && 0 <= j < |lines[i]| - 1 ==> lines[i][j] != '\n'
    decreases |text|
  {
    if text == [] then []
    else
      var k := Find(text, '\n');
      if k == |text| then [text]
      else
        var rest := ReadLines(text[k + 1..]);
        var lines := [text[..k + 1]] + rest;
        assert forall i :: 1 <= i < |lines| ==> lines[i] == rest[i - 1];
        lines
  }

  function Concat(lines: seq<string>): string {
    if lines == [] then [] else lines[0] + Concat(lines[1..])
  }

  /** Reading lines loses nothing and adds nothing. */
  lemma {:induction false} ConcatReadLines(text: string)
    ensures Concat(ReadLines(text)) == text
    decreases |text|
  {
    if text != [] {
      var k := Find(text, '\n');
      if k < |text| {
        ConcatReadLines(text[k + 1..]);
        assert text == text[..k + 1] + text[k + 1..];
      }
    }
  }

  /** `line.split('\n')[0].split(',')`: the comma-separated fields of a line without its newline. */
  function Fields(line: string): (fs: seq<string>)
    ensures |fs| >= 1
  {
    Split(Split(line, '\n')[0], ',')
  }

  /** Python's `xs.index(x)`: the first position of x, or None where a ValueError is raised. */
  function IndexOf(xs: seq<string>, x: string): (r: Option<nat>)
    ensures r.Some? ==> r.value < |xs| && xs[r.value] == x && forall j :: 0 <= j < r.value ==> xs[j] != x
    ensures r.None? ==> x !in xs
    decreases |xs|
  {
    if xs == [] then None
    else if xs[0] == x then Some(0)
    else match IndexOf(xs[1..], x)
      case None => None
      case Some(k) => Some(k + 1)
  }

  /**
   * `[conv(c) for c in fields]`, with `conv` standing for `float` or `int`;
   * a field that does not parse raises ValueError.
   */
  function ParseAll<T>(fields: seq<string>, conv: string -> Option<T>): (r: Raises<seq<T>>)
    ensures r.Raised? ==> r.error == ValueError && exists i :: 0 <= i < |fields| && conv(fields[i]).None?
    ensures r.Returns? ==> |r.value| == |fields|
    ensures r.Returns? ==> forall i :: 0 <= i < |fields| ==> conv(fields[i]) == Some(r.value[i])
    decreases |fields|
  {
    if fields == [] then Returns([])
    else match conv(fields[0])
      case None => Raised(ValueError)
      case Some(v) =>
        match ParseAll(fields[1..], conv)
        case Raised(e) => Raised(e)
        case Returns(vs) => Returns([v] + vs)
  }

  // ---------------------------------------------------------------------------
  // Loading

  /**
   * `calibrationData.__init__` on the text of the file. `toFloat` and `toInt`
   * stand for Python's `float()` and `int()` on one field.
   */
  function Load(text: string, toFloat: string -> Option<real>, toInt: string -> Option<int>): Raises<Calib> {
    var lines := ReadLines(text);
    if |lines| != LineCount then Raised(ValueError)
    else
      match ParseAll(Fields(lines[0]), toFloat)
      case Raised(e) => Raised(e)
      case Returns(calibline) =>
        match ParseAll(Fields(lines[4]), toInt)
        case Raised(e) => Raised(e)
        case Returns(subtract) =>
          match ParseAll(Fields(lines[6]), toFloat)
          case Raised(e) => Raised(e)
          case Returns(tempsens) =>
            match IndexOf(Split(lines[3], ','), GlucoseLabel)
            case None => Raised(ValueError)
            case Some(g) =>
              if g >= |subtract| || g >= |calibline| || g >= |tempsens|
                 || ReferenceTemperatureField >= |tempsens|
              then Raised(IndexError)
              else Returns(Calib(
                g,
                subtract[g] - 1,
                calibline[g] / 100.0,
                tempsens[g] / 100.0,
                tempsens[ReferenceTemperatureField]))
  }

  /**
   * What a loaded record holds: the glucose channel is the first field of
   * line 4 equal to the label, the subtracted channel is that column of line 5
   * made 0-based, and the constants are that column of lines 1 and 7 scaled
   * by 1/100, with field 7 of line 7 as the reference temperature.
   */
  lemma LoadedRecord(text: string, toFloat: string -> Option<real>, toInt: string -> Option<int>)
    requires Load(text, toFloat, toInt).Returns?
    ensures var lines := ReadLines(text);
            var c := Load(text, toFloat, toInt).value;
            var labels := Split(lines[3], ',');
            && |lines| == LineCount
            && ParseAll(Fields(lines[0]), toFloat).Returns?
            && ParseAll(Fields(lines[4]), toInt).Returns?
            && ParseAll(Fields(lines[6]), toFloat).Returns?
            && c.glucosech < |labels| && labels[c.glucosech] == GlucoseLabel
            && (forall j :: 0 <= j < c.glucosech ==> labels[j] != GlucoseLabel)
            && c.glucosech < |Fields(lines[4])|
            && toInt(Fields(lines[4])[c.glucosech]) == Some(c.subtractch + 1)
            && c.glucosech < |Fields(lines[0])|
            && toFloat(Fields(lines[0])[c.glucosech]) == Some(c.convconstant * 100.0)
            && c.glucosech < |Fields(lines[6])| && ReferenceTemperatureField < |Fields(lines[6])|
            && toFloat(Fields(lines[6])[c.glucosech]) == Some(c.tempconstant * 100.0)
            && toFloat(Fields(lines[6])[ReferenceTemperatureField]) == Some(c.defaulttemp)
  {
  }

  /**
   * Exactly when loading succeeds: eight lines, every field of lines 1, 5
   * and 7 parses, line 4 holds the label, and its first position is a column
   * that lines 1, 5 and 7 all have, with line 7 also reaching field 7.
   */
  lemma LoadSucceeds(text: string, toFloat: string -> Option<real>, toInt: string -> Option<int>)
    ensures var lines := ReadLines(text);
            Load(text, toFloat, toInt).Returns? <==>
              && |lines| == LineCount
              && ParseAll(Fields(lines[0]), toFloat).Returns?
              && ParseAll(Fields(lines[4]), toInt).Returns?
              && ParseAll(Fields(lines[6]), toFloat).Returns?
              && GlucoseLabel in Split(lines[3], ',')
              && var g := IndexOf(Split(lines[3], ','), GlucoseLabel).value;
                 && g < |Fields(lines[0])| && g < |Fields(lines[4])| && g < |Fields(lines[6])|
                 && ReferenceTemperatureField < |Fields(lines[6])|
  {
  }

  /**
   * A field that does not parse anywhere in lines 1, 5 or 7 makes loading
   * raise ValueError, whichever column it is in.
   */
  lemma BadFieldFails(text: string, toFloat: string -> Option<real>, toInt: string -> Option<int>, k: nat)
    requires |ReadLines(text)| == LineCount
    requires var lines := ReadLines(text);
             || (k < |Fields(lines[0])| && toFloat(Fields(lines[0])[k]).None?)
             || (k < |Fields(lines[4])| && toInt(Fields(lines[4])[k]).None?)
             || (k < |Fields(lines[6])| && toFloat(Fields(lines[6])[k]).None?)
    ensures Load(text, toFloat, toInt) == Raised(ValueError)
  {
  }

  /** A file that does not have exactly eight lines never loads. */
  lemma LoadNeedsEightLines(text: string, toFloat: string -> Option<real>, toInt: string -> Option<int>)
    requires |ReadLines(text)| != LineCount
    ensures Load(text, toFloat, toInt) == Raised(ValueError)
  {
  }

  /**
   * The fourth line keeps its newline, so its last field always ends in '\n'
   * and can never be the label: a "Glucose" channel in last position is never
   * found.
   */
  lemma GlucoseNotLast(text: string)
    requires |ReadLines(text)| == LineCount
    ensures var labels := Split(ReadLines(text)[3], ',');
            labels[|labels| - 1] != GlucoseLabel
  {
    var line := ReadLines(text)[3];
    SplitLastEnds(line, ',');
    var labels := Split(line, ',');
    assert labels[|labels| - 1][|labels[|labels| - 1]| - 1] == '\n';
  }

  /** Hence when the label appears only in the last field, loading raises ValueError. */
  lemma GlucoseOnlyLastFails(text: string, toFloat: string -> Option<real>, toInt: string -> Option<int>)
    requires |ReadLines(text)| == LineCount
    requires var labels := Split(ReadLines(text)[3], ',');
             forall j :: 0 <= j < |labels| - 1 ==> labels[j] != GlucoseLabel
    ensures Load(text, toFloat, toInt).Raised?
  {
    GlucoseNotLast(text);
    var labels := Split(ReadLines(text)[3], ',');
    assert GlucoseLabel !in labels;
    assert IndexOf(labels, GlucoseLabel).None?;
  }

  // ---------------------------------------------------------------------------
  // Conversion

  /** Python's `s[i]`: negative positions count from the end; others raise IndexError. */
  function PyIndex<T>(s: seq<T>, i: int): (r: Raises<T>)
    ensures r.Returns? <==> -|s| <= i < |s|
    ensures r.Raised? ==> r.error == IndexError
    ensures r.Returns? ==> r.value == s[i % |s|]
  {
    if 0 <= i < |s| then Returns(s[i])
    else if -|s| <= i < 0 then Returns(s[|s| + i])
    else Raised(IndexError)
  }

  /** The exponent of the temperature factor: `tempconstant * (temperature - defaulttemp)`. */
  function TemperatureExponent(c: Calib, temperature: real): real {
    c.tempconstant * (temperature - c.defaulttemp)
  }

  /**
   * `calc_glucose`: the glucose channel minus the subtracted channel, scaled,
   * and that value divided by the temperature factor, which is `np.exp` of
   * TemperatureExponent and is passed in as `factor`.
   */
  function CalcGlucose(c: Calib, channels: seq<int>, factor: real): Raises<(real, real)>
    requires factor > 0.0
  {
    match PyIndex(channels, c.glucosech)
    case Raised(e) => Raised(e)
    case Returns(g) =>
      match PyIndex(channels, c.subtractch)
      case Raised(e) => Raised(e)
      case Returns(s) =>
        var gluc := (g - s) as real * c.convconstant;
        Returns((gluc, gluc / factor))
  }

  /**
   * The glucose value depends on the channels only through the difference
   * between the selected pair: two readings with the same difference give
   * the same result.
   */
  lemma GlucoseDependsOnDifference(c: Calib, a: seq<int>, b: seq<int>, factor: real)
    requires factor > 0.0
    requires |a| == |b| && c.glucosech < |a| && -|a| <= c.subtractch < |a|
    requires PyIndex(a, c.glucosech).value - PyIndex(a, c.subtractch).value
             == PyIndex(b, c.glucosech).value - PyIndex(b, c.subtractch).value
    ensures CalcGlucose(c, a, factor) == CalcGlucose(c, b, factor)
  {
    CalcGlucoseValue(c, a, factor);
    CalcGlucoseValue(c, b, factor);
    var s := if c.subtractch < 0 then |a| + c.subtractch else c.subtractch;
    assert PyIndex(a, c.subtractch).value == a[s] && PyIndex(b, c.subtractch).value == b[s];
    var ra, rb := CalcGlucose(c, a, factor).value, CalcGlucose(c, b, factor).value;
    assert ra.0 == rb.0;
    assert ra == rb;
  }

  /**
   * With the indices in range, the result is the scaled difference and its
   * compensated value; the compensated value has the sign of the raw one, and
   * a factor of 1 (what `np.exp` gives for a zero temperature coefficient)
   * leaves it unchanged.
   */
  lemma CalcGlucoseValue(c: Calib, channels: seq<int>, factor: real)
    requires factor > 0.0
    requires c.glucosech < |channels| && -|channels| <= c.subtractch < |channels|
    ensures var r := CalcGlucose(c, channels, factor);
            var s := if c.subtractch < 0 then |channels| + c.subtractch else c.subtractch;
            && r.Returns?
            && r.value.0 == (channels[c.glucosech] - channels[s]) as real * c.convconstant
            && r.value.1 == r.value.0 / factor
            && (r.value.1 > 0.0 <==> r.value.0 > 0.0)
            && (r.value.1 < 0.0 <==> r.value.0 < 0.0)
            && (factor == 1.0 ==> r.value.1 == r.value.0)
  {
    var r := CalcGlucose(c, channels, factor);
    var s := if c.subtractch < 0 then |channels| + c.subtractch else c.subtractch;
    assert PyIndex(channels, c.glucosech) == Returns(channels[c.glucosech]);
    assert PyIndex(channels, c.subtractch) == Returns(channels[s]);
    assert r.Returns?;
    var gluc := r.value.0;
    assert r.value.1 == gluc / factor;
    if gluc > 0.0 {
      assert gluc / factor > 0.0;
    } else if gluc < 0.0 {
      assert gluc / factor < 0.0;
    }
  }

  /**
   * A zero temperature coefficient switches compensation off: the factor is
   * `exp(0)`, which is 1, so the compensated value equals the raw one at every
   * temperature.
   */
  lemma ZeroCoefficientUncompensated(c: Calib, channels: seq<int>, temperature: real, exp: real -> real)
    requires c.tempconstant == 0.0 && exp(0.0) == 1.0
    ensures TemperatureExponent(c, temperature) == 0.0
    ensures var g := CalcGlucose(c, channels, exp(TemperatureExponent(c, temperature)));
            g.Returns? ==> g.value.1 == g.value.0
  {
    assert TemperatureExponent(c, temperature) == 0.0;
    CalcGlucoseRaises(c, channels, 1.0);
    if CalcGlucose(c, channels, 1.0).Returns? {
      CalcGlucoseValue(c, channels, 1.0);
    }
  }

  /** An index raises exactly when the glucose or subtracted channel does not exist. */
  lemma CalcGlucoseRaises(c: Calib, channels: seq<int>, factor: real)
    requires factor > 0.0
    ensures CalcGlucose(c, channels, factor).Raised? <==>
              c.glucosech >= |channels| || !(-|channels| <= c.subtractch < |channels|)
    ensures CalcGlucose(c, channels, factor).Raised? ==>
              CalcGlucose(c, channels, factor).error == IndexError
  {
  }
}

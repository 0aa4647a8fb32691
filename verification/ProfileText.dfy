/** Profile files (crates/fw-helperd/src/profiles.rs): every legal profile is read back
    from the file it is written to, and nothing else is ever read. */
module ProfileText {
  import opened Prelude
  import opened Text
  import Curve

  datatype Ppd = PowerSaver | Balanced | Performance {
    function AsStr(): string {
      match this
      case PowerSaver => "power-saver"
      case Balanced => "balanced"
      case Performance => "performance"
    }
  }

  function ParsePpd(s: string): Option<Ppd> {
    match s
    case "power-saver" => Some(PowerSaver)
    case "balanced" => Some(Balanced)
    case "performance" => Some(Performance)
    case _ => None
  }

  const MIN_WATTS: nat := 8
  const FALLBACK_MAX_WATTS: nat := 25
  const MIN_LIMIT: nat := 20
  const MAX_LIMIT: nat := 100

  /** A curve point as a file writes it: an exact decimal temperature. */
  datatype Point = Point(celsius: Canonical, duty: Duty)

  datatype Profile = Profile(
    name: string,
    ppd: Ppd,
    pl1Watts: nat,
    curve: seq<Point>,
    chargeLimit: Option<nat>)

  datatype ProfileError = EmptyName | NameNotSimple | PowerOutOfRange(watts: nat) | ChargeOutOfRange(percent: nat)

  datatype CurveFault =
    | NotAPair(text: string)
    | NotATemperature(text: string)
    | NotADuty(text: string)
    | Refused(error: Curve.CurveError)

  /** Why a file was ignored; `line` counts from one. */
  datatype ParseError =
    | ExpectedKeyValue(line: nat)
    | UnknownPpd(line: nat, value: string)
    | NotANumber(line: nat, value: string)
    | NotAPercentage(line: nat, value: string)
    | BadCurve(line: nat, fault: CurveFault)
    | UnknownKey(line: nat, key: string)
    | Missing(field: string)
    | Invalid(error: ProfileError)

  // -------------------------------------------------------------- legal profiles

  predicate SimpleChar(c: char) { 'a' <= c <= 'z' || '0' <= c <= '9' || c == '-' }

  function Validate(p: Profile): Option<ProfileError> {
    if p.name == "" then Some(EmptyName)
    else if !(forall k :: 0 <= k < |p.name| ==> SimpleChar(p.name[k])) then Some(NameNotSimple)
    else if p.pl1Watts < MIN_WATTS || p.pl1Watts > FALLBACK_MAX_WATTS then Some(PowerOutOfRange(p.pl1Watts))
    else if p.chargeLimit.Some? && !(MIN_LIMIT <= p.chargeLimit.value <= MAX_LIMIT)
      then Some(ChargeOutOfRange(p.chargeLimit.value))
    else None
  }

  /** The points as temperatures on the real line. */
  function Reals(points: seq<Point>): (r: seq<Curve.Point>)
    ensures |r| == |points|
  {
    seq(|points|, k requires 0 <= k < |points| => Curve.Point(points[k].celsius.Value(), points[k].duty))
  }

  /** What a profile in the program is: a validated curve and fields that pass `validate`. */
  ghost predicate Legal(p: Profile) { Curve.Valid(Reals(p.curve)) && Validate(p).None? }

  // -------------------------------------------------------------------- the curve

  datatype Parsed = Parsed(celsius: Number, duty: Duty)

  function ParsePoint(pair: string): Result<Parsed, CurveFault> {
    var cut := SplitOnce(Trim(pair), ':');
    if cut.None? then Err(NotAPair(pair))
    else
      var (t, d) := cut.value;
      var celsius := ParseFloat(Trim(t));
      if celsius.None? then Err(NotATemperature(t))
      else
        var duty := ParseUnsigned(Trim(d), U8_MAX);
        if duty.None? then Err(NotADuty(d)) else Ok(Parsed(celsius.value, duty.value))
  }

  /** Every point, or the first fault. */
  function ParsePoints(pairs: seq<string>): Result<seq<Parsed>, CurveFault> {
    if pairs == [] then Ok([])
    else
      var first := ParsePoint(pairs[0]);
      if first.Err? then Err(first.error)
      else
        var rest := ParsePoints(pairs[1..]);
        if rest.Err? then Err(rest.error) else Ok([first.value] + rest.value)
  }

  function Raws(parsed: seq<Parsed>): (r: seq<Curve.RawPoint>)
    ensures |r| == |parsed|
  {
    seq(|parsed|, k requires 0 <= k < |parsed| => Curve.RawPoint(AsCelsius(parsed[k].celsius), parsed[k].duty))
  }

  /** The points once every temperature is known to be finite. */
  function Finished(parsed: seq<Parsed>): (r: seq<Point>)
    ensures |r| == |parsed|
  {
    seq(|parsed|, k requires 0 <= k < |parsed| =>
      Point(if parsed[k].celsius.Dec? then parsed[k].celsius.decimal else Decimal(0, 0), parsed[k].duty))
  }

  function ParseCurve(spec: string): Result<seq<Point>, CurveFault> {
    var parsed := ParsePoints(Split(spec, ','));
    if parsed.Err? then Err(parsed.error)
    else
      var curve := Curve.NewCurve(Raws(parsed.value));
      if curve.Err? then Err(Refused(curve.error)) else Ok(Finished(parsed.value))
  }

  function FormatPoint(p: Point): string
    requires p.celsius.mantissa >= 0
  {
    PrintDecimal(p.celsius) + ":" + PrintNat(p.duty)
  }

  predicate NonNegative(points: seq<Point>) {
    forall k :: 0 <= k < |points| ==> points[k].celsius.mantissa >= 0
  }

  function FormatPoints(points: seq<Point>): (r: seq<string>)
    requires NonNegative(points)
    ensures |r| == |points|
  {
    seq(|points|, k requires 0 <= k < |points| => FormatPoint(points[k]))
  }

  function FormatCurve(points: seq<Point>): string
    requires NonNegative(points)
  {
    Join(FormatPoints(points), ", ")
  }

  lemma ValueSign(d: Decimal)
    ensures d.Value() >= 0.0 <==> d.mantissa >= 0
  {
    var p := Pow10(d.places) as real;
    assert d.Value() * p == d.mantissa as real;
    MulOrder(0.0, d.Value(), p);
  }

  lemma ValidIsNonNegative(points: seq<Point>)
    requires Curve.Valid(Reals(points))
    ensures NonNegative(points)
  {
    forall k | 0 <= k < |points| ensures points[k].celsius.mantissa >= 0 {
      assert Reals(points)[k].celsius >= 0.0;
      ValueSign(points[k].celsius);
    }
  }

  lemma FormattedPoint(p: Point)
    requires p.celsius.mantissa >= 0
    ensures Clean(FormatPoint(p))
    ensures forall c :: c in FormatPoint(p) ==> IsDigit(c) || c == '.' || c == ':'
  {
    hide PrintDecimal, PrintNat;
    PrintedIsPlain(p.celsius);
    DigitsAreClean(PrintNat(p.duty));
  }

  lemma PointReads(p: Point, pad: string)
    requires p.celsius.mantissa >= 0 && IsPad(pad)
    ensures ParsePoint(pad + FormatPoint(p)) == Ok(Parsed(Dec(p.celsius), p.duty))
  {
    hide PrintDecimal, PrintNat, ParseFloat, ParseUnsigned, SplitOnce, Trim;
    var (t, d) := (PrintDecimal(p.celsius), PrintNat(p.duty));
    FormattedPoint(p);
    TrimPadded(pad, FormatPoint(p), "");
    assert pad + FormatPoint(p) + "" == pad + FormatPoint(p);
    PrintedIsPlain(p.celsius);
    SplitOnceAt(t, d, ':');
    TrimClean(t);
    DigitsAreClean(d);
    TrimClean(d);
    ParsePrinted(p.celsius);
    ParsePrintedNat(p.duty, U8_MAX);
  }

  function Numbers(points: seq<Point>): (r: seq<Parsed>)
    ensures |r| == |points|
  {
    seq(|points|, k requires 0 <= k < |points| => Parsed(Dec(points[k].celsius), points[k].duty))
  }

  lemma {:induction false} AllPointsRead(pairs: seq<string>, parsed: seq<Parsed>)
    requires |pairs| == |parsed|
    requires forall k :: 0 <= k < |pairs| ==> ParsePoint(pairs[k]) == Ok(parsed[k])
    ensures ParsePoints(pairs) == Ok(parsed)
  {
    hide ParsePoint;
    if pairs == [] {
    } else {
      AllPointsRead(pairs[1..], parsed[1..]);
      assert [parsed[0]] + parsed[1..] == parsed;
    }
  }

  /** A valid curve, however long, is read back point for point. */
  lemma CurveReadsBack(points: seq<Point>)
    requires Curve.Valid(Reals(points))
    ensures NonNegative(points)
    ensures ParseCurve(FormatCurve(points)) == Ok(points)
  {
    ValidIsNonNegative(points);
    assert |points| >= 2;
    hide ParsePoint, FormatPoint, Split, Join, Curve.NewCurve, Curve.Valid, AsCelsius;
    var parts := FormatPoints(points);
    forall k | 0 <= k < |parts| ensures ',' !in parts[k] {
      FormattedPoint(points[k]);
    }
    SplitJoin(parts, ',', " ");
    assert [','] + " " == ", ";
    var pairs := Split(Join(parts, ", "), ',');
    forall k | 0 <= k < |pairs| ensures ParsePoint(pairs[k]) == Ok(Numbers(points)[k]) {
      PointReads(points[k], if k == 0 then "" else " ");
      assert "" + parts[0] == parts[0];
    }
    AllPointsRead(pairs, Numbers(points));
    RawsOfNumbers(points);
    Curve.NewCurveAcceptsExactlyValid(Raws(Numbers(points)));
    assert Finished(Numbers(points)) == points;
  }

  lemma RawsOfNumbers(points: seq<Point>)
    ensures Raws(Numbers(points)) == Curve.Raw(Reals(points))
  {
    forall k | 0 <= k < |points| ensures Raws(Numbers(points))[k] == Curve.Raw(Reals(points))[k] {}
  }

  /** Whatever text a curve is read from, the curve is valid. */
  lemma ReadCurveIsValid(spec: string)
    ensures ParseCurve(spec).Ok? ==> Curve.Valid(Reals(ParseCurve(spec).value))
  {
    if ParseCurve(spec).Ok? {
      hide ParsePoints, Split, Curve.NewCurve, Curve.Valid;
      var parsed := ParsePoints(Split(spec, ',')).value;
      var raw := Raws(parsed);
      Curve.NewCurveAcceptsExactlyValid(raw);
      var points := Curve.NewCurve(raw).value;
      forall k | 0 <= k < |parsed| ensures Reals(Finished(parsed))[k] == points[k] {
        assert raw[k] == Curve.Raw(points)[k];
      }
      assert Reals(Finished(parsed)) == points;
    }
  }

  // --------------------------------------------------------------------- the file

  /** The fields read so far. */
  datatype Draft = Draft(
    name: Option<string>,
    ppd: Option<Ppd>,
    watts: Option<nat>,
    curve: Option<seq<Point>>,
    charge: Option<nat>)

  const EMPTY := Draft(None, None, None, None, None)

  function AfterKey(d: Draft, key: string, value: string, line: nat): Result<Draft, ParseError> {
    match key
    case "name" => Ok(d.(name := Some(value)))
    case "ppd" =>
      var ppd := ParsePpd(value);
      if ppd.None? then Err(UnknownPpd(line, value)) else Ok(d.(ppd := ppd))
    case "pl1_watts" =>
      var watts := ParseUnsigned(value, U32_MAX);
      if watts.None? then Err(NotANumber(line, value)) else Ok(d.(watts := watts))
    case "curve" =>
      var curve := ParseCurve(value);
      if curve.Err? then Err(BadCurve(line, curve.error)) else Ok(d.(curve := Some(curve.value)))
    case "charge_limit" =>
      var charge := ParseUnsigned(value, U8_MAX);
      if charge.None? then Err(NotAPercentage(line, value)) else Ok(d.(charge := charge))
    case _ => Err(UnknownKey(line, key))
  }

  /** One line: what stands before a comment sign, if anything, must be `key = value`. */
  function AfterLine(d: Draft, raw: string, n: nat): Result<Draft, ParseError> {
    var line := Trim(Split(raw, '#')[0]);
    if line == "" then Ok(d)
    else
      var cut := SplitOnce(line, '=');
      if cut.None? then Err(ExpectedKeyValue(n + 1))
      else AfterKey(d, Trim(cut.value.0), Trim(cut.value.1), n + 1)
  }

  /** All the lines, or the first error. */
  function AfterLines(lines: seq<string>): Result<Draft, ParseError> {
    if lines == [] then Ok(EMPTY)
    else
      var n := |lines| - 1;
      var before := AfterLines(lines[..n]);
      if before.Err? then before else AfterLine(before.value, lines[n], n)
  }

  function Finish(d: Draft): Result<Profile, ParseError> {
    if d.name.None? then Err(Missing("name"))
    else if d.ppd.None? then Err(Missing("ppd"))
    else if d.watts.None? then Err(Missing("pl1_watts"))
    else if d.curve.None? then Err(Missing("curve"))
    else
      var profile := Profile(d.name.value, d.ppd.value, d.watts.value, d.curve.value, d.charge);
      var fault := Validate(profile);
      if fault.Some? then Err(Invalid(fault.value)) else Ok(profile)
  }

  function ReadProfile(text: string): Result<Profile, ParseError> {
    var draft := AfterLines(Lines(text));
    if draft.Err? then Err(draft.error) else Finish(draft.value)
  }

  lemma {:induction false} FirstErrorStands(lines: seq<string>, n: nat)
    requires n <= |lines| && AfterLines(lines[..n]).Err?
    ensures AfterLines(lines) == AfterLines(lines[..n])
  {
    hide AfterLine;
    if n < |lines| {
      var m := |lines| - 1;
      assert lines[..m][..n] == lines[..n];
      FirstErrorStands(lines[..m], n);
    } else {
      assert lines[..n] == lines;
    }
  }

  method Parse(text: string) returns (r: Result<Profile, ParseError>)
    ensures r == ReadProfile(text)
  {
    hide ParsePpd, ParseCurve, ParseUnsigned, SplitOnce, Trim, Split, Lines, Validate;
    var name, ppd, watts, curve, charge := None, None, None, None, None;
    var lines := Lines(text);
    for n := 0 to |lines|
      invariant AfterLines(lines[..n]) == Ok(Draft(name, ppd, watts, curve, charge))
    {
      assert lines[..n + 1][..n] == lines[..n];
      ghost var step := AfterLine(Draft(name, ppd, watts, curve, charge), lines[n], n);
      assert AfterLines(lines[..n + 1]) == step;
      if step.Err? { FirstErrorStands(lines, n + 1); }
      var line := Trim(Split(lines[n], '#')[0]);
      if line == "" {
        continue;
      }
      var cut := SplitOnce(line, '=');
      if cut.None? {
        return Err(ExpectedKeyValue(n + 1));
      }
      var (key, value) := (Trim(cut.value.0), Trim(cut.value.1));
      match key {
        case "name" => name := Some(value);
        case "ppd" =>
          ppd := ParsePpd(value);
          if ppd.None? {
            return Err(UnknownPpd(n + 1, value));
          }
        case "pl1_watts" =>
          watts := ParseUnsigned(value, U32_MAX);
          if watts.None? {
            return Err(NotANumber(n + 1, value));
          }
        case "curve" =>
          var parsed := ParseCurve(value);
          if parsed.Err? {
            return Err(BadCurve(n + 1, parsed.error));
          }
          curve := Some(parsed.value);
        case "charge_limit" =>
          charge := ParseUnsigned(value, U8_MAX);
          if charge.None? {
            return Err(NotAPercentage(n + 1, value));
          }
        case _ =>
          return Err(UnknownKey(n + 1, key));
      }
    }
    assert lines[..|lines|] == lines;
    r := Finish(Draft(name, ppd, watts, curve, charge));
  }

  // -------------------------------------------------------------------- rendering

  const WRITTEN_BY: string := "fw-helper profile, written by fw-helperd."
  // In two pieces, each short enough for the verifier to search for a newline.
  const SAFE_TO_EDIT: string := "Safe to edit by hand: it is read" + " at daemon startup and never"
  const REWRITTEN: string := "rewritten unless you save over it."

  const HEADER: seq<string> := [Comment(WRITTEN_BY)] + [Comment(SAFE_TO_EDIT)] + [Comment(REWRITTEN)]

  function Comment(text: string): string { "# " + text }

  function Line(key: string, value: string): string { key + " = " + value }

  function RenderedLines(p: Profile): seq<string>
    requires NonNegative(p.curve)
  {
    HEADER
    + [Line("name", p.name)]
    + [Line("ppd", p.ppd.AsStr())]
    + [Line("pl1_watts", PrintNat(p.pl1Watts))]
    + [Line("curve", FormatCurve(p.curve))]
    + (if p.chargeLimit.Some? then [Line("charge_limit", PrintNat(p.chargeLimit.value))] else [])
  }

  method Render(p: Profile) returns (out: string)
    requires NonNegative(p.curve)
    ensures out == Unlines(RenderedLines(p))
  {
    hide Unlines, FormatCurve, PrintNat, Line, Comment;
    UnlinesSnoc([], Comment(WRITTEN_BY));
    UnlinesSnoc([Comment(WRITTEN_BY)], Comment(SAFE_TO_EDIT));
    UnlinesSnoc([Comment(WRITTEN_BY)] + [Comment(SAFE_TO_EDIT)], Comment(REWRITTEN));
    out := Comment(WRITTEN_BY) + "\n";
    out := out + Comment(SAFE_TO_EDIT) + "\n";
    out := out + Comment(REWRITTEN) + "\n";
    ghost var lines := HEADER;
    UnlinesSnoc(lines, Line("name", p.name));
    out, lines := out + Line("name", p.name) + "\n", lines + [Line("name", p.name)];
    UnlinesSnoc(lines, Line("ppd", p.ppd.AsStr()));
    out, lines := out + Line("ppd", p.ppd.AsStr()) + "\n", lines + [Line("ppd", p.ppd.AsStr())];
    UnlinesSnoc(lines, Line("pl1_watts", PrintNat(p.pl1Watts)));
    out := out + Line("pl1_watts", PrintNat(p.pl1Watts)) + "\n";
    lines := lines + [Line("pl1_watts", PrintNat(p.pl1Watts))];
    UnlinesSnoc(lines, Line("curve", FormatCurve(p.curve)));
    out, lines := out + Line("curve", FormatCurve(p.curve)) + "\n", lines + [Line("curve", FormatCurve(p.curve))];
    if p.chargeLimit.Some? {
      UnlinesSnoc(lines, Line("charge_limit", PrintNat(p.chargeLimit.value)));
      out := out + Line("charge_limit", PrintNat(p.chargeLimit.value)) + "\n";
    } else {
      assert lines + [] == lines;
    }
  }

  // ----------------------------------------------------------- the round trip

  predicate KeyLike(key: string) { Clean(key) && '#' !in key && '=' !in key }

  /** A value no comment sign, newline or outer space gets in the way of. */
  predicate ValueLike(value: string) { Clean(value) && '#' !in value && '\n' !in value }

  lemma LineReads(d: Draft, key: string, value: string, n: nat)
    requires KeyLike(key) && '\n' !in key && ValueLike(value)
    ensures AfterLine(d, Line(key, value), n) == AfterKey(d, key, value, n + 1)
    ensures LineSafe(Line(key, value))
  {
    hide AfterKey, Trim, SplitOnce, Split;
    var line := Line(key, value);
    SplitWhole(line, '#');
    TrimClean(line);
    assert line == (key + " ") + ['='] + (" " + value);
    SplitOnceAt(key + " ", " " + value, '=');
    TrimPadded("", key, " ");
    assert "" + key + " " == key + " ";
    TrimPadded(" ", value, "");
    assert " " + value + "" == " " + value;
  }

  lemma CommentReads(d: Draft, text: string, n: nat)
    ensures AfterLine(d, Comment(text), n) == Ok(d)
  {
    assert Split(Comment(text), '#')[0] == "";
  }

  lemma NameIsValueLike(name: string)
    requires name != "" && forall k :: 0 <= k < |name| ==> SimpleChar(name[k])
    ensures ValueLike(name)
  {}

  lemma DigitsAreValueLike(n: nat)
    ensures ValueLike(PrintNat(n))
  {
    DigitsAreClean(PrintNat(n));
  }

  lemma {:induction false} JoinIsValueLike(parts: seq<string>)
    requires parts != [] && forall k :: 0 <= k < |parts| ==> ValueLike(parts[k])
    ensures ValueLike(Join(parts, ", "))
  {
    if |parts| == 1 {
    } else {
      JoinIsValueLike(parts[1..]);
    }
  }

  lemma CurveIsValueLike(points: seq<Point>)
    requires points != [] && NonNegative(points)
    ensures ValueLike(FormatCurve(points))
  {
    hide FormatPoint, Join;
    forall k | 0 <= k < |points| ensures ValueLike(FormatPoints(points)[k]) {
      FormattedPoint(points[k]);
    }
    JoinIsValueLike(FormatPoints(points));
  }

  lemma AfterSnoc(lines: seq<string>, line: string, d: Draft)
    requires AfterLines(lines) == Ok(d)
    ensures AfterLines(lines + [line]) == AfterLine(d, line, |lines|)
  {
    hide AfterLine;
    assert (lines + [line])[..|lines|] == lines;
  }

  /** Reading one more `key = value` line. */
  lemma FieldReads(lines: seq<string>, d: Draft, key: string, value: string, d': Draft)
    requires AfterLines(lines) == Ok(d) && AllSafe(lines)
    requires KeyLike(key) && '\n' !in key && ValueLike(value)
    requires AfterKey(d, key, value, |lines| + 1) == Ok(d')
    ensures AfterLines(lines + [Line(key, value)]) == Ok(d') && AllSafe(lines + [Line(key, value)])
  {
    hide AfterKey, AfterLine, AfterLines;
    LineReads(d, key, value, |lines|);
    AfterSnoc(lines, Line(key, value), d);
  }

  lemma CommentAppends(lines: seq<string>, text: string)
    requires AfterLines(lines) == Ok(EMPTY) && AllSafe(lines) && LineSafe(Comment(text))
    ensures AfterLines(lines + [Comment(text)]) == Ok(EMPTY) && AllSafe(lines + [Comment(text)])
  {
    hide AfterLine, AfterLines, LineSafe;
    CommentReads(EMPTY, text, |lines|);
    AfterSnoc(lines, Comment(text), EMPTY);
  }

  lemma CommentsAreSafe()
    ensures LineSafe(Comment(WRITTEN_BY)) && LineSafe(Comment(SAFE_TO_EDIT)) && LineSafe(Comment(REWRITTEN))
  {
    assert '\n' !in "Safe to edit by hand: it is read" && '\n' !in " at daemon startup and never";
  }

  lemma HeaderReads()
    ensures AfterLines(HEADER) == Ok(EMPTY) && AllSafe(HEADER)
  {
    assert AfterLines([]) == Ok(EMPTY);
    hide AfterLines, LineSafe, Comment;
    CommentsAreSafe();
    CommentAppends([], WRITTEN_BY);
    assert [] + [Comment(WRITTEN_BY)] == [Comment(WRITTEN_BY)];
    CommentAppends([Comment(WRITTEN_BY)], SAFE_TO_EDIT);
    CommentAppends([Comment(WRITTEN_BY)] + [Comment(SAFE_TO_EDIT)], REWRITTEN);
  }

  /** The draft a rendered profile is read into. */
  function DraftOf(p: Profile): Draft {
    Draft(Some(p.name), Some(p.ppd), Some(p.pl1Watts), Some(p.curve), p.chargeLimit)
  }

  lemma PpdReads(ppd: Ppd)
    ensures ParsePpd(ppd.AsStr()) == Some(ppd) && ValueLike(ppd.AsStr())
  {}

  /** Each rendered field sets its part of the draft. */
  lemma FieldsRead(p: Profile, d: Draft, n: nat)
    requires Legal(p)
    ensures NonNegative(p.curve)
    ensures AfterKey(d, "name", p.name, n) == Ok(d.(name := Some(p.name)))
    ensures AfterKey(d, "ppd", p.ppd.AsStr(), n) == Ok(d.(ppd := Some(p.ppd)))
    ensures AfterKey(d, "pl1_watts", PrintNat(p.pl1Watts), n) == Ok(d.(watts := Some(p.pl1Watts)))
    ensures AfterKey(d, "curve", FormatCurve(p.curve), n) == Ok(d.(curve := Some(p.curve)))
    ensures p.chargeLimit.Some? ==>
      AfterKey(d, "charge_limit", PrintNat(p.chargeLimit.value), n) == Ok(d.(charge := p.chargeLimit))
  {
    hide ParseCurve, FormatCurve, ParseUnsigned, PrintNat, ParsePpd, Ppd.AsStr, Curve.Valid;
    CurveReadsBack(p.curve);
    PpdReads(p.ppd);
    ParsePrintedNat(p.pl1Watts, U32_MAX);
    if p.chargeLimit.Some? { ParsePrintedNat(p.chargeLimit.value, U8_MAX); }
  }

  lemma FieldsAreValueLike(p: Profile)
    requires Legal(p)
    ensures NonNegative(p.curve)
    ensures ValueLike(p.name) && ValueLike(p.ppd.AsStr()) && ValueLike(PrintNat(p.pl1Watts))
    ensures ValueLike(FormatCurve(p.curve))
    ensures p.chargeLimit.Some? ==> ValueLike(PrintNat(p.chargeLimit.value))
  {
    assert |p.curve| >= 2;
    NameIsValueLike(p.name);
    hide FormatCurve, PrintNat, ValueLike, Curve.Valid;
    ValidIsNonNegative(p.curve);
    CurveIsValueLike(p.curve);
    PpdReads(p.ppd);
    DigitsAreValueLike(p.pl1Watts);
    if p.chargeLimit.Some? { DigitsAreValueLike(p.chargeLimit.value); }
  }

  lemma RenderedLinesRead(p: Profile)
    requires Legal(p)
    ensures NonNegative(p.curve)
    ensures AllSafe(RenderedLines(p)) && AfterLines(RenderedLines(p)) == Ok(DraftOf(p))
  {
    hide AfterLines, AfterKey, FormatCurve, PrintNat, AllSafe, ValueLike, Line, Ppd.AsStr, Legal, NonNegative;
    FieldsAreValueLike(p);
    HeaderReads();
    var (d1, l1) := (EMPTY.(name := Some(p.name)), HEADER + [Line("name", p.name)]);
    FieldsRead(p, EMPTY, |HEADER| + 1);
    FieldReads(HEADER, EMPTY, "name", p.name, d1);
    var (d2, l2) := (d1.(ppd := Some(p.ppd)), l1 + [Line("ppd", p.ppd.AsStr())]);
    FieldsRead(p, d1, |l1| + 1);
    FieldReads(l1, d1, "ppd", p.ppd.AsStr(), d2);
    var (d3, l3) := (d2.(watts := Some(p.pl1Watts)), l2 + [Line("pl1_watts", PrintNat(p.pl1Watts))]);
    FieldsRead(p, d2, |l2| + 1);
    FieldReads(l2, d2, "pl1_watts", PrintNat(p.pl1Watts), d3);
    var (d4, l4) := (d3.(curve := Some(p.curve)), l3 + [Line("curve", FormatCurve(p.curve))]);
    FieldsRead(p, d3, |l3| + 1);
    FieldReads(l3, d3, "curve", FormatCurve(p.curve), d4);
    if p.chargeLimit.Some? {
      FieldsRead(p, d4, |l4| + 1);
      FieldReads(l4, d4, "charge_limit", PrintNat(p.chargeLimit.value), DraftOf(p));
    } else {
      assert RenderedLines(p) == l4;
    }
  }

  /** Every legal profile is read back from what it is written as. */
  lemma ProfileRoundTrip(p: Profile)
    requires Legal(p)
    ensures NonNegative(p.curve)
    ensures ReadProfile(Unlines(RenderedLines(p))) == Ok(p)
  {
    hide AfterLines, RenderedLines, Lines, Unlines, LineSafe, Curve.Valid;
    RenderedLinesRead(p);
    LinesUnlines(RenderedLines(p));
  }

  /** What has been read so far holds no curve that is not valid. */
  ghost predicate Sound(r: Result<Draft, ParseError>) {
    r.Ok? && r.value.curve.Some? ==> Curve.Valid(Reals(r.value.curve.value))
  }

  lemma KeyStaysSound(d: Draft, key: string, value: string, line: nat)
    requires Sound(Ok(d))
    ensures Sound(AfterKey(d, key, value, line))
  {
    hide Curve.Valid, ParseCurve, ParsePpd, ParseUnsigned;
    ReadCurveIsValid(value);
  }

  lemma {:induction false} LinesStaySound(lines: seq<string>)
    ensures Sound(AfterLines(lines))
  {
    hide AfterKey, Curve.Valid, Split, Trim, SplitOnce;
    if lines == [] {
    } else {
      var n := |lines| - 1;
      LinesStaySound(lines[..n]);
      var before := AfterLines(lines[..n]);
      var cut := SplitOnce(Trim(Split(lines[n], '#')[0]), '=');
      if before.Ok? && cut.Some? {
        KeyStaysSound(before.value, Trim(cut.value.0), Trim(cut.value.1), n + 1);
      }
    }
  }

  /** The profiles a file can hold are exactly the legal ones: nothing else is ever read,
      and each of them is. */
  lemma FilesHoldExactlyLegalProfiles(p: Profile)
    ensures (exists text :: ReadProfile(text) == Ok(p)) <==> Legal(p)
  {
    hide AfterLines, Validate, Curve.Valid, Lines, RenderedLines, Unlines;
    if text: string :| ReadProfile(text) == Ok(p) {
      LinesStaySound(Lines(text));
    }
    if Legal(p) {
      ProfileRoundTrip(p);
    }
  }

  // --------------------------------------------------------------- what is refused

  /** Whatever follows a comment sign might as well not be there. */
  lemma CommentsDoNotCount(d: Draft, line: string, comment: string, n: nat)
    requires '#' !in line
    ensures AfterLine(d, line + "#" + comment, n) == AfterLine(d, line, n)
  {
    SplitAt(line, comment, '#');
    SplitWhole(line, '#');
  }

  /** The line an error names, where it names one. */
  function LineOf(e: ParseError): nat {
    match e
    case ExpectedKeyValue(line) => line
    case UnknownPpd(line, _) => line
    case NotANumber(line, _) => line
    case NotAPercentage(line, _) => line
    case BadCurve(line, _) => line
    case UnknownKey(line, _) => line
    case _ => 0
  }

  /** The first bad line is the one reported: every line before it was read, and it was not. */
  lemma {:induction false} ErrorNamesItsLine(lines: seq<string>)
    ensures
      var r := AfterLines(lines);
      r.Err? ==>
        var k := LineOf(r.error);
        1 <= k <= |lines| && AfterLines(lines[..k - 1]).Ok? && AfterLines(lines[..k]) == r
  {
    hide AfterLine;
    if lines == [] {
    } else {
      var n := |lines| - 1;
      var before := AfterLines(lines[..n]);
      if before.Err? {
        ErrorNamesItsLine(lines[..n]);
        var k := LineOf(before.error);
        assert lines[..n][..k] == lines[..k] && lines[..n][..k - 1] == lines[..k - 1];
      } else {
        LineErrsAtItself(before.value, lines[n], n);
        assert lines[..n + 1] == lines;
      }
    }
  }

  lemma LineErrsAtItself(d: Draft, raw: string, n: nat)
    ensures AfterLine(d, raw, n).Err? ==> LineOf(AfterLine(d, raw, n).error) == n + 1
  {
    hide ParsePpd, ParseCurve, ParseUnsigned, Trim, Split, SplitOnce;
  }

  /** A line whose key is none of the five is refused, and so is one with no equals sign. */
  lemma StrayLinesAreRefused(d: Draft, key: string, value: string, n: nat)
    requires KeyLike(key) && '\n' !in key && ValueLike(value)
    requires key !in {"name", "ppd", "pl1_watts", "curve", "charge_limit"}
    ensures AfterLine(d, Line(key, value), n) == Err(UnknownKey(n + 1, key))
    ensures '=' !in value ==> AfterLine(d, value, n) == Err(ExpectedKeyValue(n + 1))
  {
    LineReads(d, key, value, n);
    hide Line, SplitOnce, Split, Trim;
    if '=' !in value {
      SplitWhole(value, '#');
      TrimClean(value);
      SplitOnceNone(value, '=');
    }
  }

  /** The limits, exactly: a name in lower case, digits and dashes, a budget of 8 to 25 watts,
      and a charge limit of 20 to 100 percent if there is one. */
  lemma LegalExactly(p: Profile)
    ensures Legal(p) <==>
      && Curve.Valid(Reals(p.curve))
      && p.name != "" && (forall k :: 0 <= k < |p.name| ==> SimpleChar(p.name[k]))
      && 8 <= p.pl1Watts <= 25
      && (p.chargeLimit.Some? ==> 20 <= p.chargeLimit.value <= 100)
  {}

  /** And so is a line with one of the five keys and a value that is not one of its values. */
  lemma BadValuesAreRefused(d: Draft, value: string, n: nat)
    requires ValueLike(value)
    ensures value !in {"power-saver", "balanced", "performance"} ==>
      AfterLine(d, Line("ppd", value), n) == Err(UnknownPpd(n + 1, value))
    ensures ParseUnsigned(value, U32_MAX).None? ==>
      AfterLine(d, Line("pl1_watts", value), n) == Err(NotANumber(n + 1, value))
    ensures ParseUnsigned(value, U8_MAX).None? ==>
      AfterLine(d, Line("charge_limit", value), n) == Err(NotAPercentage(n + 1, value))
    ensures ParseCurve(value).Err? ==>
      AfterLine(d, Line("curve", value), n) == Err(BadCurve(n + 1, ParseCurve(value).error))
  {
    hide AfterLine, AfterKey, Line, ParseUnsigned, ParseCurve, ValueLike;
    LineReads(d, "ppd", value, n);
    LineReads(d, "pl1_watts", value, n);
    LineReads(d, "charge_limit", value, n);
    LineReads(d, "curve", value, n);
    BadValuesRefusedByKey(d, value, n + 1);
  }

  lemma BadValuesRefusedByKey(d: Draft, value: string, line: nat)
    ensures value !in {"power-saver", "balanced", "performance"} ==>
      AfterKey(d, "ppd", value, line) == Err(UnknownPpd(line, value))
    ensures ParseUnsigned(value, U32_MAX).None? ==>
      AfterKey(d, "pl1_watts", value, line) == Err(NotANumber(line, value))
    ensures ParseUnsigned(value, U8_MAX).None? ==>
      AfterKey(d, "charge_limit", value, line) == Err(NotAPercentage(line, value))
    ensures ParseCurve(value).Err? ==>
      AfterKey(d, "curve", value, line) == Err(BadCurve(line, ParseCurve(value).error))
  {
    hide ParseUnsigned, ParseCurve;
  }
}

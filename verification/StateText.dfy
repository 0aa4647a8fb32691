/** The daemon's state file (crates/fw-helperd/src/state.rs): what is saved is what is
    loaded, and a damaged floor entry costs only itself. */
module StateText {
  import opened Prelude
  import opened Text
  import Board
  import Floor

  /** The stored floor: temperature and duty, in the order it was saved. */
  type Entries = seq<(Celsius, Duty)>

  datatype State = State(
    chargeLimit: Option<nat>,
    powerLimit: Option<nat>,
    profile: Option<string>,
    profileOnAc: Option<string>,
    profileOnBattery: Option<string>,
    floor: Entries,
    floorBoard: Option<string>)

  const DEFAULT := State(None, None, None, None, None, [], None)

  const HEADER: string := "# written by fw-helperd"

  // ----------------------------------------------------------------- the floor

  function ParsePair(pair: string): Option<(Celsius, Duty)> {
    var cut := SplitOnce(Trim(pair), ':');
    if cut.None? then None
    else
      var (celsius, duty) := (ParseFloat(Trim(cut.value.0)), ParseUnsigned(Trim(cut.value.1), U8_MAX));
      if celsius.None? || duty.None? then None else Some((AsCelsius(celsius.value), duty.value))
  }

  /** What one entry contributes. */
  function Kept(pair: string): Entries {
    var entry := ParsePair(pair);
    if entry.Some? then [entry.value] else []
  }

  /** The entries that parse, in order; the others are skipped. */
  function ParsePairs(pairs: seq<string>): Entries {
    if pairs == [] then []
    else Kept(pairs[0]) + ParsePairs(pairs[1..])
  }

  function ParseFloor(value: string): Entries { ParsePairs(Split(value, ',')) }

  function FormatPair(entry: (Celsius, Duty)): string { PrintRounded(entry.0) + ":" + PrintNat(entry.1) }

  function FormatPairs(floor: Entries): (pairs: seq<string>)
    ensures |pairs| == |floor|
  {
    seq(|floor|, k requires 0 <= k < |floor| => FormatPair(floor[k]))
  }

  function FormatFloor(floor: Entries): string { Join(FormatPairs(floor), ",") }

  /** A floor as it comes back: every temperature to the nearest degree. */
  function WholeDegrees(floor: Entries): (r: Entries)
    ensures |r| == |floor|
  {
    seq(|floor|, k requires 0 <= k < |floor| => (Rounded(floor[k].0), floor[k].1))
  }

  lemma {:induction false} ParsePairsAppend(a: seq<string>, b: seq<string>)
    ensures ParsePairs(a + b) == ParsePairs(a) + ParsePairs(b)
  {
    hide Kept;
    if a == [] {
      assert a + b == b;
    } else {
      assert (a + b)[1..] == a[1..] + b;
      ParsePairsAppend(a[1..], b);
    }
  }

  /** A damaged entry never affects its neighbours: whatever stands before a comma and
      whatever stands after it are read as if the other were not there. */
  lemma DamageStaysLocal(a: string, b: string)
    ensures ParseFloor(a + "," + b) == ParseFloor(a) + ParseFloor(b)
  {
    SplitAt(a, b, ',');
    ParsePairsAppend(Split(a, ','), Split(b, ','));
  }

  lemma FormatPairReads(entry: (Celsius, Duty))
    ensures ParsePair(FormatPair(entry)) == Some((Rounded(entry.0), entry.1))
    ensures Clean(FormatPair(entry)) && ',' !in FormatPair(entry) && '\n' !in FormatPair(entry)
  {
    hide ParseFloat, ParseUnsigned, PrintRounded, PrintNat, Rounded, AsCelsius, SplitOnce, Trim;
    var (celsius, duty) := (PrintRounded(entry.0), PrintNat(entry.1));
    ParseRounded(entry.0);
    ParsePrintedNat(entry.1, U8_MAX);
    DigitsAreClean(duty);
    TrimClean(celsius);
    TrimClean(duty);
    TrimClean(FormatPair(entry));
    SplitOnceAt(celsius, duty, ':');
  }

  lemma {:induction false} ParseFormattedPairs(floor: Entries)
    ensures ParsePairs(FormatPairs(floor)) == WholeDegrees(floor)
  {
    hide ParsePair, FormatPair, Rounded;
    if floor == [] {
    } else {
      FormatPairReads(floor[0]);
      assert FormatPairs(floor)[1..] == FormatPairs(floor[1..]);
      ParseFormattedPairs(floor[1..]);
      assert [WholeDegrees(floor)[0]] + WholeDegrees(floor[1..]) == WholeDegrees(floor);
    }
  }

  lemma {:induction false} JoinIsClean(parts: seq<string>)
    requires parts != [] && forall k :: 0 <= k < |parts| ==> Clean(parts[k]) && '\n' !in parts[k]
    ensures Clean(Join(parts, ",")) && '\n' !in Join(parts, ",")
  {
    if |parts| == 1 {
    } else {
      JoinIsClean(parts[1..]);
    }
  }

  /** Any floor with an entry in it is read back as written, to the nearest degree. */
  lemma SavedFloorReadsBack(floor: Entries)
    requires floor != []
    ensures ParseFloor(FormatFloor(floor)) == WholeDegrees(floor)
    ensures Clean(FormatFloor(floor)) && '\n' !in FormatFloor(floor)
  {
    hide ParsePairs, FormatPair, Split, Join;
    var pairs := FormatPairs(floor);
    forall k | 0 <= k < |pairs| ensures Clean(pairs[k]) && ',' !in pairs[k] && '\n' !in pairs[k] {
      FormatPairReads(floor[k]);
    }
    JoinIsClean(pairs);
    SplitJoin(pairs, ',', "");
    assert [','] + "" == ",";
    var split := Split(Join(pairs, ","), ',');
    forall k | 0 <= k < |pairs| ensures split[k] == pairs[k] {
      if k > 0 { assert "" + pairs[k] == pairs[k]; }
    }
    assert split == pairs;
    ParseFormattedPairs(floor);
  }

  // ------------------------------------------------------------------- loading

  function NonEmpty(value: string): Option<string> { if value == "" then None else Some(value) }

  function AfterKey(s: State, key: string, value: string): State {
    match key
    case "charge_limit" => s.(chargeLimit := ParseUnsigned(Trim(value), U8_MAX))
    case "power_limit" => s.(powerLimit := ParseUnsigned(Trim(value), U32_MAX))
    case "profile" => s.(profile := NonEmpty(Trim(value)))
    case "profile_on_ac" => s.(profileOnAc := NonEmpty(Trim(value)))
    case "profile_on_battery" => s.(profileOnBattery := NonEmpty(Trim(value)))
    case "fan_floor" => s.(floor := ParseFloor(value))
    case "fan_floor_board" => s.(floorBoard := NonEmpty(Trim(value)))
    case _ => s
  }

  function AfterLine(s: State, raw: string): State {
    var line := Trim(raw);
    if line == "" || line[0] == '#' then s
    else
      var cut := SplitOnce(line, '=');
      if cut.None? then s else AfterKey(s, Trim(cut.value.0), cut.value.1)
  }

  function AfterLines(s: State, lines: seq<string>): State {
    if lines == [] then s else AfterLine(AfterLines(s, lines[..|lines| - 1]), lines[|lines| - 1])
  }

  function Loaded(text: string): State { AfterLines(DEFAULT, Lines(text)) }

  method Load(file: Option<string>) returns (s: State)
    ensures s == if file.None? then DEFAULT else Loaded(file.value)
  {
    s := DEFAULT;
    if file.None? {
      return;
    }
    var lines := Lines(file.value);
    for n := 0 to |lines|
      invariant s == AfterLines(DEFAULT, lines[..n])
    {
      assert lines[..n + 1][..n] == lines[..n];
      var line := Trim(lines[n]);
      if line == "" || line[0] == '#' {
        continue;
      }
      var cut := SplitOnce(line, '=');
      if cut.None? {
        continue;
      }
      var (key, value) := (Trim(cut.value.0), cut.value.1);
      match key {
        case "charge_limit" => s := s.(chargeLimit := ParseUnsigned(Trim(value), U8_MAX));
        case "power_limit" => s := s.(powerLimit := ParseUnsigned(Trim(value), U32_MAX));
        case "profile" => s := s.(profile := NonEmpty(Trim(value)));
        case "profile_on_ac" => s := s.(profileOnAc := NonEmpty(Trim(value)));
        case "profile_on_battery" => s := s.(profileOnBattery := NonEmpty(Trim(value)));
        case "fan_floor" => s := s.(floor := ParseFloor(value));
        case "fan_floor_board" => s := s.(floorBoard := NonEmpty(Trim(value)));
        case _ =>
      }
    }
    assert lines[..|lines|] == lines;
  }

  // -------------------------------------------------------------------- saving

  function Line(key: string, value: string): string { key + "=" + value }

  function NumberLine(key: string, value: Option<nat>): seq<string> {
    if value.Some? then [Line(key, PrintNat(value.value))] else []
  }

  function TextLine(key: string, value: Option<string>): seq<string> {
    if value.Some? then [Line(key, value.value)] else []
  }

  /** The floor, and the board it was learned on; neither without an entry. */
  function FloorLines(s: State): seq<string> {
    if s.floor == [] then []
    else [Line("fan_floor", FormatFloor(s.floor))] + TextLine("fan_floor_board", s.floorBoard)
  }

  function LimitLines(s: State): seq<string> {
    [HEADER] + NumberLine("charge_limit", s.chargeLimit) + NumberLine("power_limit", s.powerLimit)
  }

  function NameLines(s: State): seq<string> {
    LimitLines(s) + TextLine("profile", s.profile) + TextLine("profile_on_ac", s.profileOnAc)
    + TextLine("profile_on_battery", s.profileOnBattery)
  }

  function SavedLines(s: State): seq<string> { NameLines(s) + FloorLines(s) }

  /** Appending the line of one field appends what the file gains. */
  lemma NumberAppends(lines: seq<string>, key: string, value: Option<nat>)
    ensures Unlines(lines + NumberLine(key, value))
         == if value.None? then Unlines(lines) else Unlines(lines) + Line(key, PrintNat(value.value)) + "\n"
  {
    hide Unlines, PrintNat;
    if value.None? {
      assert lines + [] == lines;
    } else {
      UnlinesSnoc(lines, Line(key, PrintNat(value.value)));
    }
  }

  lemma TextAppends(lines: seq<string>, key: string, value: Option<string>)
    ensures Unlines(lines + TextLine(key, value))
         == if value.None? then Unlines(lines) else Unlines(lines) + Line(key, value.value) + "\n"
  {
    hide Unlines;
    if value.None? {
      assert lines + [] == lines;
    } else {
      UnlinesSnoc(lines, Line(key, value.value));
    }
  }

  method Save(s: State) returns (out: string)
    ensures out == Unlines(SavedLines(s))
  {
    hide Unlines, FormatFloor, PrintNat, NumberLine, TextLine, Line;
    ghost var lines := [HEADER];
    UnlinesSnoc([], HEADER);
    out := HEADER + "\n";
    NumberAppends(lines, "charge_limit", s.chargeLimit);
    lines := lines + NumberLine("charge_limit", s.chargeLimit);
    if s.chargeLimit.Some? {
      out := out + Line("charge_limit", PrintNat(s.chargeLimit.value)) + "\n";
    }
    NumberAppends(lines, "power_limit", s.powerLimit);
    lines := lines + NumberLine("power_limit", s.powerLimit);
    if s.powerLimit.Some? {
      out := out + Line("power_limit", PrintNat(s.powerLimit.value)) + "\n";
    }
    TextAppends(lines, "profile", s.profile);
    lines := lines + TextLine("profile", s.profile);
    if s.profile.Some? {
      out := out + Line("profile", s.profile.value) + "\n";
    }
    TextAppends(lines, "profile_on_ac", s.profileOnAc);
    lines := lines + TextLine("profile_on_ac", s.profileOnAc);
    if s.profileOnAc.Some? {
      out := out + Line("profile_on_ac", s.profileOnAc.value) + "\n";
    }
    TextAppends(lines, "profile_on_battery", s.profileOnBattery);
    lines := lines + TextLine("profile_on_battery", s.profileOnBattery);
    if s.profileOnBattery.Some? {
      out := out + Line("profile_on_battery", s.profileOnBattery.value) + "\n";
    }
    if s.floor != [] {
      UnlinesSnoc(lines, Line("fan_floor", FormatFloor(s.floor)));
      out := out + Line("fan_floor", FormatFloor(s.floor)) + "\n";
      lines := lines + [Line("fan_floor", FormatFloor(s.floor))];
      TextAppends(lines, "fan_floor_board", s.floorBoard);
      lines := lines + TextLine("fan_floor_board", s.floorBoard);
      if s.floorBoard.Some? {
        out := out + Line("fan_floor_board", s.floorBoard.value) + "\n";
      }
    }
    assert lines == SavedLines(s);
  }

  // ----------------------------------------------------------- the round trip

  /** A name the file can carry: something on one line, with no space at either end. Every
      profile name and every trimmed board name is one. */
  predicate Writable(name: Option<string>) { name.Some? ==> Clean(name.value) && '\n' !in name.value }

  predicate Storable(s: State) {
    && (s.chargeLimit.Some? ==> s.chargeLimit.value <= U8_MAX)
    && (s.powerLimit.Some? ==> s.powerLimit.value <= U32_MAX)
    && Writable(s.profile) && Writable(s.profileOnAc) && Writable(s.profileOnBattery)
    && Writable(s.floorBoard)
  }

  /** A state as it comes back: whole degrees, and no board without a floor. */
  function Reloaded(s: State): State {
    s.(floor := WholeDegrees(s.floor), floorBoard := if s.floor == [] then None else s.floorBoard)
  }

  predicate KeyLike(key: string) { Clean(key) && key[0] != '#' && '=' !in key && '\n' !in key }

  lemma LineReads(s: State, key: string, value: string)
    requires KeyLike(key) && Clean(value) && '\n' !in value
    ensures AfterLine(s, Line(key, value)) == AfterKey(s, key, value)
    ensures LineSafe(Line(key, value))
  {
    hide AfterKey, Trim, SplitOnce;
    TrimClean(Line(key, value));
    SplitOnceAt(key, value, '=');
    TrimClean(key);
  }

  lemma {:induction false} AfterLinesAppend(s: State, a: seq<string>, b: seq<string>)
    ensures AfterLines(s, a + b) == AfterLines(AfterLines(s, a), b)
    decreases |b|
  {
    if b == [] {
      assert a + b == a;
    } else {
      assert (a + b)[..|a + b| - 1] == a + b[..|b| - 1];
      AfterLinesAppend(s, a, b[..|b| - 1]);
    }
  }

  lemma AfterOneLine(s: State, line: string)
    ensures AfterLines(s, [line]) == AfterLine(s, line)
    ensures AfterLines(s, []) == s
  {
    hide AfterLine;
    assert [line][..0] == [];
  }

  lemma NumberLineReads(s: State, key: string, value: Option<nat>)
    requires KeyLike(key)
    ensures AllSafe(NumberLine(key, value))
    ensures AfterLines(s, NumberLine(key, value))
         == if value.None? then s else AfterKey(s, key, PrintNat(value.value))
    ensures value.Some? ==> Trim(PrintNat(value.value)) == PrintNat(value.value)
  {
    hide AfterKey, AfterLine, AfterLines, PrintNat, Trim, LineSafe;
    AfterOneLine(s, "");
    if value.Some? {
      DigitsAreClean(PrintNat(value.value));
      TrimClean(PrintNat(value.value));
      LineReads(s, key, PrintNat(value.value));
      AfterOneLine(s, Line(key, PrintNat(value.value)));
    }
  }

  lemma TextLineReads(s: State, key: string, value: Option<string>)
    requires KeyLike(key) && Writable(value)
    ensures AllSafe(TextLine(key, value))
    ensures AfterLines(s, TextLine(key, value)) == if value.None? then s else AfterKey(s, key, value.value)
    ensures value.Some? ==> NonEmpty(Trim(value.value)) == value
  {
    hide AfterKey, AfterLine, AfterLines, Trim, LineSafe;
    AfterOneLine(s, "");
    if value.Some? {
      TrimClean(value.value);
      LineReads(s, key, value.value);
      AfterOneLine(s, Line(key, value.value));
    }
  }

  lemma FloorLinesRead(s: State, from: State)
    requires Writable(s.floorBoard)
    ensures AllSafe(FloorLines(s))
    ensures AfterLines(from, FloorLines(s)) ==
      if s.floor == [] then from
      else
        var read := from.(floor := WholeDegrees(s.floor));
        if s.floorBoard.None? then read else read.(floorBoard := s.floorBoard)
  {
    hide AfterLine, AfterLines, Trim, LineSafe, FormatFloor, ParseFloor, ParseUnsigned;
    AfterOneLine(from, "");
    if s.floor != [] {
      var value := FormatFloor(s.floor);
      SavedFloorReadsBack(s.floor);
      LineReads(from, "fan_floor", value);
      AfterOneLine(from, Line("fan_floor", value));
      var read := AfterKey(from, "fan_floor", value);
      TextLineReads(read, "fan_floor_board", s.floorBoard);
      AfterLinesAppend(from, [Line("fan_floor", value)], TextLine("fan_floor_board", s.floorBoard));
    }
  }

  lemma SafeTogether(a: seq<string>, b: seq<string>)
    requires AllSafe(a) && AllSafe(b)
    ensures AllSafe(a + b)
  {}

  lemma NumberStep(s: State, lines: seq<string>, key: string, value: Option<nat>)
    requires AfterLines(DEFAULT, lines) == s && AllSafe(lines) && KeyLike(key)
    ensures AllSafe(lines + NumberLine(key, value))
    ensures AfterLines(DEFAULT, lines + NumberLine(key, value))
         == if value.None? then s else AfterKey(s, key, PrintNat(value.value))
    ensures value.Some? ==> Trim(PrintNat(value.value)) == PrintNat(value.value)
  {
    hide AfterLines, AfterKey, AllSafe, NumberLine, PrintNat, Trim;
    NumberLineReads(s, key, value);
    SafeTogether(lines, NumberLine(key, value));
    AfterLinesAppend(DEFAULT, lines, NumberLine(key, value));
  }

  lemma TextStep(s: State, lines: seq<string>, key: string, value: Option<string>)
    requires AfterLines(DEFAULT, lines) == s && AllSafe(lines) && KeyLike(key) && Writable(value)
    ensures AllSafe(lines + TextLine(key, value))
    ensures AfterLines(DEFAULT, lines + TextLine(key, value))
         == if value.None? then s else AfterKey(s, key, value.value)
    ensures value.Some? ==> NonEmpty(Trim(value.value)) == value
  {
    hide AfterLines, AfterKey, AllSafe, TextLine, Trim;
    TextLineReads(s, key, value);
    SafeTogether(lines, TextLine(key, value));
    AfterLinesAppend(DEFAULT, lines, TextLine(key, value));
  }

  lemma HeaderReads()
    ensures AfterLines(DEFAULT, [HEADER]) == DEFAULT && AllSafe([HEADER])
  {
    hide AfterLines;
    TrimClean(HEADER);
    AfterOneLine(DEFAULT, HEADER);
  }

  lemma LimitLinesRead(s: State)
    requires Storable(s)
    ensures AllSafe(LimitLines(s))
    ensures AfterLines(DEFAULT, LimitLines(s)) == DEFAULT.(chargeLimit := s.chargeLimit, powerLimit := s.powerLimit)
  {
    hide AfterLines, NumberLine, AllSafe, Trim, PrintNat, ParseUnsigned;
    HeaderReads();
    NumberStep(DEFAULT, [HEADER], "charge_limit", s.chargeLimit);
    if s.chargeLimit.Some? { ParsePrintedNat(s.chargeLimit.value, U8_MAX); }
    var charged := DEFAULT.(chargeLimit := s.chargeLimit);
    NumberStep(charged, [HEADER] + NumberLine("charge_limit", s.chargeLimit), "power_limit", s.powerLimit);
    if s.powerLimit.Some? { ParsePrintedNat(s.powerLimit.value, U32_MAX); }
  }

  lemma NameLinesRead(s: State)
    requires Storable(s)
    ensures AllSafe(NameLines(s))
    ensures AfterLines(DEFAULT, NameLines(s)) == s.(floor := [], floorBoard := None)
  {
    hide AfterLines, LimitLines, TextLine, AllSafe, Trim;
    LimitLinesRead(s);
    var s2 := DEFAULT.(chargeLimit := s.chargeLimit, powerLimit := s.powerLimit);
    var l2 := LimitLines(s);
    TextStep(s2, l2, "profile", s.profile);
    var s3 := s2.(profile := s.profile);
    var l3 := l2 + TextLine("profile", s.profile);
    TextStep(s3, l3, "profile_on_ac", s.profileOnAc);
    var s4 := s3.(profileOnAc := s.profileOnAc);
    TextStep(s4, l3 + TextLine("profile_on_ac", s.profileOnAc), "profile_on_battery", s.profileOnBattery);
  }

  /** The lines of one state, read from the defaults. */
  lemma SavedLinesRead(s: State)
    requires Storable(s)
    ensures AllSafe(SavedLines(s))
    ensures AfterLines(DEFAULT, SavedLines(s)) == Reloaded(s)
  {
    hide AfterLines, NameLines, FloorLines, AllSafe;
    NameLinesRead(s);
    var named := s.(floor := [], floorBoard := None);
    FloorLinesRead(s, named);
    SafeTogether(NameLines(s), FloorLines(s));
    AfterLinesAppend(DEFAULT, NameLines(s), FloorLines(s));
    if s.floor == [] { assert WholeDegrees(s.floor) == []; }
  }

  /** What is saved is what is loaded: every limit and name as it was, the floor to the
      nearest degree, and its board with it. */
  lemma SavedIsLoaded(s: State)
    requires Storable(s)
    ensures Loaded(Unlines(SavedLines(s))) == Reloaded(s)
  {
    hide AfterLines, SavedLines, Lines, Unlines, LineSafe;
    SavedLinesRead(s);
    LinesUnlines(SavedLines(s));
  }

  // ------------------------------------------------- the floor over a restart

  lemma {:induction false} LowEdgesAreWhole(t: Floor.Table, i: nat)
    requires i <= Floor.BUCKETS
    ensures WholeDegrees(Floor.ObservationsFrom(t, i)) == Floor.ObservationsFrom(t, i)
    decreases Floor.BUCKETS - i
  {
    if i == Floor.BUCKETS {
    } else {
      var all := Floor.ObservationsFrom(t, i);
      var rest := Floor.ObservationsFrom(t, i + 1);
      LowEdgesAreWhole(t, i + 1);
      if t[i].Some? {
        assert Floor.LowEdge(i) == (30 + 2 * i) as real;
        assert Rounded(all[0].0) == all[0].0;
        forall k | 0 <= k < |all| ensures WholeDegrees(all)[k] == all[k] {
          if k > 0 { assert all[k] == rest[k - 1] == WholeDegrees(rest)[k - 1]; }
        }
      } else {
        assert all == rest;
      }
    }
  }

  /** A learned floor outlives the daemon: saved, loaded and restored into a fresh floor, it
      bounds the fan at every temperature exactly as it did before. */
  lemma LearnedFloorSurvivesRestart(p: Board.BoardProfile, t: Floor.Table, s: State, celsius: Celsius)
    requires |p.dutyRpm| > 0 && |p.firmwareCurve| > 0
    requires Storable(s) && s.floor == Floor.Observations(t)
    ensures
      var restored := Floor.AfterRestore(Floor.FRESH, Loaded(Unlines(SavedLines(s))).floor);
      && restored.table == t
      && Floor.FloorDuty(p, restored.table, celsius) == Floor.FloorDuty(p, t, celsius)
  {
    hide Loaded, SavedLines, Unlines, Floor.FloorDuty, Floor.AfterRestore;
    SavedIsLoaded(s);
    LowEdgesAreWhole(t, 0);
    Floor.RestoreObservations(t);
  }

  // ---------------------------------------------------------- damaged entries

  /** An entry with no colon is skipped, and one whose duty is not a duty. */
  lemma DamagedEntriesAreSkipped(a: string, bad: string, b: string, celsius: string, n: nat)
    requires ',' !in bad && ':' !in bad
    requires Clean(celsius) && ',' !in celsius && ':' !in celsius && n > 255
    ensures ParseFloor(a + "," + bad + "," + b) == ParseFloor(a) + ParseFloor(b)
    ensures ParseFloor(celsius + ":" + PrintNat(n)) == []
  {
    hide ParsePairs, Split, Trim, SplitOnce, PrintNat, ParseFloat;
    DamageStaysLocal(a + "," + bad, b);
    DamageStaysLocal(a, bad);
    SkippedAlone(bad);
    LoudEntryIsSkipped(celsius, n);
    assert ParseFloor(a) + [] == ParseFloor(a);
  }

  lemma SkippedAlone(pair: string)
    requires ',' !in pair && (ParsePair(pair).None? || ':' !in pair)
    ensures ParseFloor(pair) == []
  {
    hide ParseFloat, ParseUnsigned;
    SplitWhole(pair, ',');
    if ':' !in pair {
      TrimSubset(pair, ':');
      SplitOnceNone(Trim(pair), ':');
    }
    assert [pair][1..] == [];
  }

  /** Trimming adds nothing. */
  lemma TrimSubset(s: string, c: char)
    requires c !in s
    ensures c !in Trim(s)
  {
    TrimStartSubset(s, c);
    TrimEndSubset(TrimStart(s), c);
  }

  lemma {:induction false} TrimStartSubset(s: string, c: char)
    requires c !in s
    ensures c !in TrimStart(s)
  {
    if s == "" {
    } else {
      TrimStartSubset(s[1..], c);
    }
  }

  lemma {:induction false} TrimEndSubset(s: string, c: char)
    requires c !in s
    ensures c !in TrimEnd(s)
  {
    if s == "" {
    } else {
      TrimEndSubset(s[..|s| - 1], c);
    }
  }

  lemma LoudEntryIsSkipped(celsius: string, n: nat)
    requires Clean(celsius) && ',' !in celsius && ':' !in celsius && n > 255
    ensures ParseFloor(celsius + ":" + PrintNat(n)) == []
  {
    hide ParseFloat, SplitOnce, Trim, PrintNat, DigitsValue;
    var pair := celsius + ":" + PrintNat(n);
    DigitsAreClean(PrintNat(n));
    PrintNatValue(n);
    TrimClean(pair);
    SplitOnceAt(celsius, PrintNat(n), ':');
    TrimClean(PrintNat(n));
    NotANumber(PrintNat(n));
    SkippedAlone(pair);
  }
}

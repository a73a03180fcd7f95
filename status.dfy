/** Reading the status text of `xrandr --query`: the connector names that
    get_displays collects, the header pattern both revisions match, and the
    two revisions' rules for reading one display's settings. */
module StatusText {
  import opened Outcomes
  import opened Text

  // ---------------------------------------------------------------- header line

  /** What the header pattern captures: the word after the name (the state)
      and the optional WIDTHxHEIGHT group right after it. */
  datatype Header = Header(state: string, resolution: Option<string>)
  {
    /** `state == "connected"` in init_values. */
    predicate Connected()
    {
      state == "connected"
    }

    /** `resolution is not None` in init_values. */
    predicate Active()
    {
      resolution.Some?
    }
  }

  /** The pattern `^<name> ([^\s]+) (\d+x\d+)?(\+\d+\+\d+)?.*` on one line
      (the trailing groups never make a match fail, so they are not checked).
      The name is matched literally. */
  function ParseHeader(name: string, line: string): (r: Option<Header>)
    ensures r.Some? ==> name + " " <= line && |r.value.state| > 0
  {
    var prefix := name + " ";
    if !(prefix <= line) then None
    else
      var rest := line[|prefix|..];
      var t := TokenLength(rest);
      if t == 0 || t == |rest| || rest[t] != ' ' then None
      else Some(Header(rest[..t], ResolutionPrefix(rest[t + 1..])))
  }

  /** A line made of the name, a space, a non-empty state word and a space is
      a header; the state is that word and the resolution is the
      WIDTHxHEIGHT group at the very start of what follows, if any. */
  lemma HeaderRoundTrip(name: string, state: string, tail: string)
    requires |state| > 0 && NoSpace(state)
    ensures ParseHeader(name, name + " " + state + " " + tail) == Some(Header(state, ResolutionPrefix(tail)))
  {
    var line := name + " " + state + " " + tail;
    var rest := line[|name| + 1..];
    assert rest == state + (" " + tail);
    TokenLengthOfWord(state, " " + tail);
    assert rest[..|state|] == state;
    assert rest[|state| + 1..] == tail;
  }

  /** Every header has that shape, so the round trip above describes all of
      them: a header line is exactly name, space, state word, space, rest. */
  lemma HeaderShape(name: string, line: string)
    requires ParseHeader(name, line).Some?
    ensures var h := ParseHeader(name, line).value;
      |h.state| > 0 && NoSpace(h.state)
      && line == name + " " + h.state + " " + line[|name| + |h.state| + 2..]
  {
    var h := ParseHeader(name, line).value;
    var rest := line[|name| + 1..];
    var t := TokenLength(rest);
    assert h.state == rest[..t] && rest[t] == ' ';
    TokenLengthSound(rest);
    assert h.state == line[|name| + 1..|name| + 1 + t];
    FourParts(line, name, h.state);
  }

  /** A line that starts with `name + " "`, continues with `word` and then a
      space is those four parts. */
  lemma FourParts(line: string, name: string, word: string)
    requires name + " " <= line && |name| + |word| + 1 < |line|
    requires line[|name| + 1..|name| + 1 + |word|] == word && line[|name| + 1 + |word|] == ' '
    ensures line == name + " " + word + " " + line[|name| + |word| + 2..]
  {
    assert line[..|name| + 1] == name + " ";
    assert line == line[..|name| + 1] + line[|name| + 1..|name| + 1 + |word|] + [line[|name| + 1 + |word|]] + line[|name| + |word| + 2..];
  }

  /** The resolution group must come right after the state word: a second
      word such as `primary` makes the display read as inactive, whatever
      follows it. */
  lemma PrimaryHeaderIsInactive(name: string, rest: string)
    ensures ParseHeader(name, name + " connected primary " + rest) == Some(Header("connected", None))
  {
    var tail := "primary " + rest;
    assert name + " connected primary " + rest == name + " " + "connected" + " " + tail;
    HeaderRoundTrip(name, "connected", tail);
    assert DigitRun(tail) == 0;
  }

  // ---------------------------------------------------------------- display names

  /** The pattern `\n([^\s]*) (connected|disconnected).*` at the start of one
      line: the captured name, or None. */
  function HeaderName(line: string): (r: Option<string>)
    ensures r.Some? ==> NoSpace(r.value) && r.value <= line
  {
    var n := TokenLength(line);
    TokenLengthSound(line);
    var rest := line[n..];
    if " connected" <= rest || " disconnected" <= rest then Some(line[..n]) else None
  }

  /** A whitespace-free name followed by ` connected` or ` disconnected` is
      recognised, whatever comes after. */
  lemma HeaderNameRoundTrip(name: string, sep: string, tail: string)
    requires NoSpace(name)
    requires sep == " connected" || sep == " disconnected"
    ensures HeaderName(name + sep + tail) == Some(name)
  {
    var line := name + sep + tail;
    var rest := sep + tail;
    assert line == name + rest;
    TokenLengthOfWord(name, rest);
    assert line[|name|..] == rest;
    assert line[..|name|] == name;
  }

  /** The names found in `lines`, in order: `re.findall` keeps one name per
      matching line, since a match cannot run past the end of its line. */
  function NamesIn(lines: seq<string>): (names: seq<string>)
    ensures |names| <= |lines|
    ensures forall k | 0 <= k < |names| :: NoSpace(names[k])
  {
    if lines == [] then []
    else
      var first := HeaderName(lines[0]);
      (if first.Some? then [first.value] else []) + NamesIn(lines[1..])
  }

  /** A name is collected exactly when some line introduces it. */
  lemma {:induction false} NamesInSpec(lines: seq<string>, name: string)
    ensures name in NamesIn(lines) <==> exists k | 0 <= k < |lines| :: HeaderName(lines[k]) == Some(name)
  {
    if lines != [] {
      NamesInSpec(lines[1..], name);
      if exists k | 0 <= k < |lines| - 1 :: HeaderName(lines[1..][k]) == Some(name) {
        var k :| 0 <= k < |lines| - 1 && HeaderName(lines[1..][k]) == Some(name);
        assert HeaderName(lines[k + 1]) == Some(name);
      }
      if exists k | 0 <= k < |lines| :: HeaderName(lines[k]) == Some(name) {
        var k :| 0 <= k < |lines| && HeaderName(lines[k]) == Some(name);
        if k > 0 {
          assert HeaderName(lines[1..][k - 1]) == Some(name);
        }
      }
    }
  }

  /** get_displays: the connector names of the status text, in text order.
      The pattern starts with a newline, so the first line never counts. */
  function DisplayNames(status: string): (names: seq<string>)
    ensures forall k | 0 <= k < |names| :: NoSpace(names[k])
  {
    NamesIn(SplitLines(status)[1..])
  }

  /** A status text whose lines after the first introduce the given names,
      one per line, yields exactly those names in that order. */
  lemma {:induction false} DisplayNamesOfHeaders(first: string, names: seq<string>, seps: seq<string>, tails: seq<string>)
    requires '\n' !in first
    requires |seps| == |names| == |tails|
    requires forall k | 0 <= k < |names| :: NoSpace(names[k]) && '\n' !in names[k] && '\n' !in tails[k]
    requires forall k | 0 <= k < |names| :: seps[k] == " connected" || seps[k] == " disconnected"
    ensures var lines := seq(|names|, k requires 0 <= k < |names| => names[k] + seps[k] + tails[k]);
      DisplayNames(JoinLines([first] + lines)) == names
  {
    var lines := seq(|names|, k requires 0 <= k < |names| => names[k] + seps[k] + tails[k]);
    forall k | 0 <= k < |lines|
      ensures '\n' !in lines[k] && HeaderName(lines[k]) == Some(names[k])
    {
      HeaderNameRoundTrip(names[k], seps[k], tails[k]);
      assert '\n' !in seps[k];
    }
    SplitJoin([first] + lines);
    assert ([first] + lines)[1..] == lines;
    NamesOfHeaderLines(lines, names);
  }

  lemma {:induction false} NamesOfHeaderLines(lines: seq<string>, names: seq<string>)
    requires |lines| == |names|
    requires forall k | 0 <= k < |lines| :: HeaderName(lines[k]) == Some(names[k])
    ensures NamesIn(lines) == names
  {
    if lines != [] {
      NamesOfHeaderLines(lines[1..], names[1..]);
    }
  }

  // ---------------------------------------------------------------- xrandr-dmenu.py

  /** What xrandr-dmenu.py's init_values reads for one display: the header
      fields and the modes listed under it. */
  datatype Reading = Reading(header: Header, modes: seq<string>)

  /** Every line of the status text, stripped (`lines[i].rstrip().lstrip()`). */
  function StripAll(lines: seq<string>): (stripped: seq<string>)
    ensures |stripped| == |lines|
  {
    if lines == [] then [] else [Strip(lines[0])] + StripAll(lines[1..])
  }

  lemma {:induction false} StripAllAt(lines: seq<string>, i: nat)
    requires i < |lines|
    ensures StripAll(lines)[i] == Strip(lines[i])
  {
    if i > 0 {
      StripAllAt(lines[1..], i - 1);
    }
  }

  /** The outer loop's test `line[0:len(name)] == name` on the stripped
      lines: the first index at or after `i` whose line starts with the name. */
  function FindPrefixed(name: string, stripped: seq<string>, i: nat): (k: Option<nat>)
    requires i <= |stripped|
    ensures k.Some? ==> i <= k.value < |stripped| && name <= stripped[k.value]
    ensures forall j | i <= j < (if k.Some? then k.value else |stripped|) :: !(name <= stripped[j])
    decreases |stripped| - i
  {
    if i == |stripped| then None
    else if name <= stripped[i] then Some(i)
    else FindPrefixed(name, stripped, i + 1)
  }

  /** How the inner loop treats one line, once stripped: an empty line or one
      whose first character is not a digit ends the block; a digit-led line
      contributes the WIDTHxHEIGHT group of `^(\d+x\d+).*$`, or, when that
      pattern fails, is an error. */
  datatype ModeLine = BlockEnd | Mode(resolution: string) | BadMode(text: string)

  function ClassifyModeLine(line: string): (kind: ModeLine)
    ensures kind.BlockEnd? <==> Strip(line) == [] || !IsDigit(Strip(line)[0])
    ensures kind.BadMode? ==> kind.text == Strip(line)
    ensures kind.Mode? ==> kind.resolution <= Strip(line)
  {
    var l := Strip(line);
    if l == [] || !IsDigit(l[0]) then BlockEnd
    else
      match ResolutionPrefix(l)
      case None => BadMode(l)
      case Some(r) => ResolutionPrefixSound(l); Mode(r)
  }

  /** The class of every line of the status text, in order. */
  function ModeLines(lines: seq<string>): (kinds: seq<ModeLine>)
    ensures |kinds| == |lines|
  {
    if lines == [] then [] else [ClassifyModeLine(lines[0])] + ModeLines(lines[1..])
  }

  lemma {:induction false} ModeLinesAt(lines: seq<string>, i: nat)
    requires i < |lines|
    ensures ModeLines(lines)[i] == ClassifyModeLine(lines[i])
  {
    if i > 0 {
      ModeLinesAt(lines[1..], i - 1);
    }
  }

  function PrependModes(prefix: seq<string>, r: Result<seq<string>>): Result<seq<string>>
  {
    match r
    case Ok(rest) => Ok(prefix + rest)
    case Err(e) => Err(e)
  }

  /** The inner loop from line `j` on, as a machine over line classes: it
      collects modes until the block ends or the input does, and fails at a
      bad mode line. */
  function ScanModes(kinds: seq<ModeLine>, j: nat): (r: Result<seq<string>>)
    requires j <= |kinds|
    ensures r.Ok? ==> j + |r.value| <= |kinds|
    ensures r.Err? ==> r.failure.BadModeLine? && exists t | j <= t < |kinds| :: kinds[t] == BadMode(r.failure.line)
    decreases |kinds| - j
  {
    if j == |kinds| then Ok([])
    else
      match kinds[j]
      case BlockEnd => Ok([])
      case BadMode(l) => Err(BadModeLine(l))
      case Mode(r) => PrependModes([r], ScanModes(kinds, j + 1))
  }

  /** A successful scan holds, in order, the WIDTHxHEIGHT of each line it
      passed, and stopped at the end of the input or at a line that ends the
      block. */
  lemma {:induction false} ScanModesSound(kinds: seq<ModeLine>, j: nat)
    requires j <= |kinds| && ScanModes(kinds, j).Ok?
    ensures var modes := ScanModes(kinds, j).value;
      && j + |modes| <= |kinds|
      && (forall t | 0 <= t < |modes| :: kinds[j + t] == Mode(modes[t]))
      && (j + |modes| == |kinds| || kinds[j + |modes|] == BlockEnd)
    decreases |kinds| - j
  {
    if j < |kinds| && kinds[j].Mode? {
      ScanModesSound(kinds, j + 1);
      var rest := ScanModes(kinds, j + 1).value;
      var modes := ScanModes(kinds, j).value;
      assert modes == [kinds[j].resolution] + rest;
      forall t | 0 <= t < |modes|
        ensures kinds[j + t] == Mode(modes[t])
      {
        if t > 0 {
          assert modes[t] == rest[t - 1];
          assert kinds[j + t] == kinds[(j + 1) + (t - 1)];
        }
      }
    }
  }

  /** Mode lines up to the end of the input or to a line that ends the block
      always scan successfully. */
  lemma {:induction false} ScanModesComplete(kinds: seq<ModeLine>, j: nat, k: nat)
    requires j <= k <= |kinds|
    requires forall t | j <= t < k :: kinds[t].Mode?
    requires k == |kinds| || kinds[k] == BlockEnd
    ensures ScanModes(kinds, j).Ok?
    decreases k - j
  {
    if j < k {
      ScanModesComplete(kinds, j + 1, k);
    }
  }

  /** The first digit-led line without a WIDTHxHEIGHT prefix makes the scan
      fail, naming that line. */
  lemma {:induction false} ScanModesFailsAt(kinds: seq<ModeLine>, j: nat, k: nat)
    requires j <= k < |kinds|
    requires forall t | j <= t < k :: kinds[t].Mode?
    requires kinds[k].BadMode?
    ensures ScanModes(kinds, j) == Err(BadModeLine(kinds[k].text))
    decreases k - j
  {
    if j < k {
      ScanModesFailsAt(kinds, j + 1, k);
    }
  }

  /** What a mode line yields is the WIDTHxHEIGHT prefix of the stripped line. */
  lemma ModeLineSound(line: string)
    requires ClassifyModeLine(line).Mode?
    ensures var r := ClassifyModeLine(line).resolution;
      IsResolution(r) && NoSpace(r) && r <= Strip(line)
  {
    var r := ClassifyModeLine(line).resolution;
    ResolutionPrefixSound(Strip(line));
    ResolutionHasNoSpace(r);
  }

  /** Every scanned mode is a WIDTHxHEIGHT string, so it holds no whitespace. */
  lemma ScannedModesAreResolutions(lines: seq<string>, j: nat)
    requires j <= |lines| && ScanModes(ModeLines(lines), j).Ok?
    ensures forall m | m in ScanModes(ModeLines(lines), j).value :: IsResolution(m) && NoSpace(m)
  {
    var kinds := ModeLines(lines);
    var modes := ScanModes(kinds, j).value;
    ScanModesSound(kinds, j);
    forall m | m in modes
      ensures IsResolution(m) && NoSpace(m)
    {
      var t :| 0 <= t < |modes| && modes[t] == m;
      assert kinds[j + t] == Mode(m);
      ModeLinesAt(lines, j + t);
      ModeLineSound(lines[j + t]);
    }
  }

  /** The header xrandr-dmenu.py's outer loop settles on, among the stripped
      lines: the first line that starts with the name must match the header
      pattern (otherwise `match.groups()` fails on None); no such line is an
      error too (the script's `state` stays unbound). */
  function FirstHeader(name: string, stripped: seq<string>): (r: Result<(nat, Header)>)
    ensures r.Ok? ==> r.value.0 < |stripped| && name <= stripped[r.value.0]
                      && ParseHeader(name, stripped[r.value.0]) == Some(r.value.1)
    ensures r.Err? ==> r.failure == NoHeader(name) || (r.failure.BadHeader? && r.failure.line in stripped)
  {
    match FindPrefixed(name, stripped, 0)
    case None => Err(NoHeader(name))
    case Some(i) =>
      match ParseHeader(name, stripped[i])
      case None => Err(BadHeader(stripped[i]))
      case Some(h) => Ok((i, h))
  }

  /** The header read comes from the first line that starts with the name,
      and an error means there is no such line or it does not match the
      pattern. */
  lemma FirstHeaderSpec(name: string, stripped: seq<string>)
    ensures var r := FirstHeader(name, stripped);
      && (r.Ok? ==> var (i, h) := r.value;
           && i < |stripped|
           && (forall j | 0 <= j < i :: !(name <= stripped[j]))
           && name <= stripped[i]
           && ParseHeader(name, stripped[i]) == Some(h))
      && (r == Err(NoHeader(name)) <==> forall j | 0 <= j < |stripped| :: !(name <= stripped[j]))
  {
    var k := FindPrefixed(name, stripped, 0);
    if k.Some? {
      assert !(forall j | 0 <= j < |stripped| :: !(name <= stripped[j]));
    }
  }

  /** xrandr-dmenu.py's init_values over the stripped lines and the classes
      of the lines: the header, then the mode block right after the header
      line. */
  function ReadFrom(name: string, stripped: seq<string>, kinds: seq<ModeLine>): (r: Result<Reading>)
    requires |kinds| == |stripped|
    ensures r.Err? ==> r.failure.NoHeader? || r.failure.BadHeader? || r.failure.BadModeLine?
  {
    match FirstHeader(name, stripped)
    case Err(e) => Err(e)
    case Ok((i, h)) =>
      match ScanModes(kinds, i + 1)
      case Err(e) => Err(e)
      case Ok(modes) => Ok(Reading(h, modes))
  }

  /** xrandr-dmenu.py's init_values on the lines of the status text. */
  function ReadStripped(name: string, lines: seq<string>): (r: Result<Reading>)
    ensures r.Err? ==> r.failure.NoHeader? || r.failure.BadHeader? || r.failure.BadModeLine?
  {
    ReadFrom(name, StripAll(lines), ModeLines(lines))
  }

  /** Every mode init_values collects is a WIDTHxHEIGHT string without
      whitespace. */
  lemma ReadStrippedModes(name: string, lines: seq<string>)
    requires ReadStripped(name, lines).Ok?
    ensures forall m | m in ReadStripped(name, lines).value.modes :: IsResolution(m) && NoSpace(m)
  {
    ScannedModesAreResolutions(lines, FirstHeader(name, StripAll(lines)).value.0 + 1);
  }

  /** What init_values reads, line by line: the header comes from the first
      line that starts with the name once stripped, and the modes from the
      lines right below it, one per line, up to the end of the text or to a
      line that ends the block. */
  lemma ReadStrippedSound(name: string, lines: seq<string>, rd: Reading)
    requires ReadStripped(name, lines) == Ok(rd)
    ensures exists i | 0 <= i < |lines| :: ReadsAt(name, lines, i, rd)
  {
    var i := ReadHeaderOf(name, lines, rd);
    ModeBlockLines(lines, i + 1, rd.modes);
    assert ReadsAt(name, lines, i, rd);
  }

  /** Line `i` is the first that starts with the name once stripped, its
      header is the reading's, and the reading's modes come one per line from
      the lines right below it. */
  ghost predicate ReadsAt(name: string, lines: seq<string>, i: nat, rd: Reading)
    requires i < |lines|
  {
    HeaderAt(name, lines, i, rd.header) && BlockAt(lines, i + 1, rd.modes)
  }

  /** Line `i` is the first that starts with the name once stripped, and its
      header is `h`. */
  ghost predicate HeaderAt(name: string, lines: seq<string>, i: nat, h: Header)
    requires i < |lines|
  {
    && (forall j | 0 <= j < i :: !(name <= Strip(lines[j])))
    && name <= Strip(lines[i])
    && ParseHeader(name, Strip(lines[i])) == Some(h)
  }

  /** The lines from `j` on hold `modes`, one per line, up to the end of the
      text or to a line that ends the block. */
  ghost predicate BlockAt(lines: seq<string>, j: nat, modes: seq<string>)
  {
    && j + |modes| <= |lines|
    && (forall t | 0 <= t < |modes| :: ClassifyModeLine(lines[j + t]) == Mode(modes[t]))
    && (j + |modes| == |lines| || ClassifyModeLine(lines[j + |modes|]) == BlockEnd)
  }

  lemma ReadHeaderOf(name: string, lines: seq<string>, rd: Reading) returns (i: nat)
    requires ReadStripped(name, lines) == Ok(rd)
    ensures i < |lines| && HeaderAt(name, lines, i, rd.header)
    ensures ScanModes(ModeLines(lines), i + 1) == Ok(rd.modes)
  {
    var stripped := StripAll(lines);
    FirstHeaderSpec(name, stripped);
    i := FirstHeader(name, stripped).value.0;
    StripAllAt(lines, i);
    forall j | 0 <= j < i
      ensures !(name <= Strip(lines[j]))
    {
      StripAllAt(lines, j);
    }
  }

  /** A block that scans is read off the lines themselves. */
  lemma ModeBlockLines(lines: seq<string>, j: nat, modes: seq<string>)
    requires j <= |lines| && ScanModes(ModeLines(lines), j) == Ok(modes)
    ensures BlockAt(lines, j, modes)
  {
    var kinds := ModeLines(lines);
    ScanModesSound(kinds, j);
    forall t | 0 <= t < |modes|
      ensures ClassifyModeLine(lines[j + t]) == Mode(modes[t])
    {
      ModeLinesAt(lines, j + t);
    }
    if j + |modes| < |lines| {
      ModeLinesAt(lines, j + |modes|);
    }
  }

  /** init_values fails for want of a header exactly when no line starts
      with the name once stripped. */
  lemma ReadStrippedMissing(name: string, lines: seq<string>)
    ensures ReadStripped(name, lines) == Err(NoHeader(name)) <==> forall j | 0 <= j < |lines| :: !(name <= Strip(lines[j]))
  {
    var stripped := StripAll(lines);
    FirstHeaderSpec(name, stripped);
    forall j | 0 <= j < |lines|
      ensures stripped[j] == Strip(lines[j])
    {
      StripAllAt(lines, j);
    }
  }

  /** The steps of ReadFrom when no line starts with the name. */
  lemma ReadFromMissing(name: string, stripped: seq<string>, kinds: seq<ModeLine>)
    requires |kinds| == |stripped| && FindPrefixed(name, stripped, 0).None?
    ensures ReadFrom(name, stripped, kinds) == Err(NoHeader(name))
  {
  }

  /** The first line that starts with the name does not match the header
      pattern. */
  lemma ReadFromBadHeader(name: string, stripped: seq<string>, kinds: seq<ModeLine>, i: nat)
    requires |kinds| == |stripped| && FindPrefixed(name, stripped, 0) == Some(i)
    requires ParseHeader(name, stripped[i]).None?
    ensures ReadFrom(name, stripped, kinds) == Err(BadHeader(stripped[i]))
  {
  }

  /** The header matches but the mode block under it does not scan. */
  lemma ReadFromBadModes(name: string, stripped: seq<string>, kinds: seq<ModeLine>, i: nat, e: Failure)
    requires |kinds| == |stripped| && FindPrefixed(name, stripped, 0) == Some(i)
    requires ParseHeader(name, stripped[i]).Some?
    requires ScanModes(kinds, i + 1) == Err(e)
    ensures ReadFrom(name, stripped, kinds) == Err(e)
  {
  }

  /** The header matches and the mode block under it scans. */
  lemma ReadFromOk(name: string, stripped: seq<string>, kinds: seq<ModeLine>, i: nat, h: Header, modes: seq<string>)
    requires |kinds| == |stripped| && FindPrefixed(name, stripped, 0) == Some(i)
    requires ParseHeader(name, stripped[i]) == Some(h)
    requires ScanModes(kinds, i + 1) == Ok(modes)
    ensures ReadFrom(name, stripped, kinds) == Ok(Reading(h, modes))
  {
  }

  // ---------------------------------------------------------------- xrand-dmenu.py

  /** `re.search` of `\n<name> ([^\s]+) ...` over the whole text: the first
      line after line `k - 1` that matches the header pattern. Lines that start
      with the name but do not match are skipped. */
  function FindRawHeader(name: string, lines: seq<string>, k: nat): (r: Option<nat>)
    requires k <= |lines|
    ensures r.Some? ==> k <= r.value < |lines| && ParseHeader(name, lines[r.value]).Some?
    decreases |lines| - k
  {
    if k == |lines| then None
    else if ParseHeader(name, lines[k]).Some? then Some(k)
    else FindRawHeader(name, lines, k + 1)
  }

  /** The search skips only lines that are not headers: none before the one
      found, and none at all when nothing is found. */
  lemma {:induction false} FindRawHeaderSound(name: string, lines: seq<string>, k: nat)
    requires k <= |lines|
    ensures var r := FindRawHeader(name, lines, k);
      forall j | k <= j < (if r.Some? then r.value else |lines|) :: ParseHeader(name, lines[j]).None?
    decreases |lines| - k
  {
    if k < |lines| && ParseHeader(name, lines[k]).None? {
      FindRawHeaderSound(name, lines, k + 1);
    }
  }

  /** xrand-dmenu.py's init_values: the first header of the display on a line
      after the first; none is an error (`match` is None). */
  function ReadRaw(name: string, lines: seq<string>): (r: Result<Header>)
    ensures r.Err? ==> r.failure == NoHeader(name)
  {
    if |lines| == 0 then Err(NoHeader(name))
    else
      match FindRawHeader(name, lines, 1)
      case None => Err(NoHeader(name))
      case Some(k) => Ok(ParseHeader(name, lines[k]).value)
  }

  /** The header read is that of a line after the first, and the search fails
      exactly when no line after the first matches the pattern. */
  lemma ReadRawSpec(name: string, lines: seq<string>)
    ensures var r := ReadRaw(name, lines);
      && (r.Ok? ==> exists k | 1 <= k < |lines| :: ParseHeader(name, lines[k]) == Some(r.value))
      && (r.Err? <==> forall k | 1 <= k < |lines| :: ParseHeader(name, lines[k]).None?)
  {
    if |lines| > 0 {
      FindRawHeaderSound(name, lines, 1);
    }
  }

  /** The two revisions agree on the header when the display's first line
      (not the status text's first line) carries no surrounding whitespace and
      matches the pattern. */
  lemma RevisionsAgreeOnHeader(name: string, lines: seq<string>, i: nat)
    requires |name| > 0 && NoSpace(name)
    requires 1 <= i < |lines| && Strip(lines[i]) == lines[i]
    requires ParseHeader(name, lines[i]).Some?
    requires forall j | 0 <= j < i :: !(name <= Strip(lines[j]))
    ensures ReadRaw(name, lines) == Ok(ParseHeader(name, lines[i]).value)
    ensures FirstHeader(name, StripAll(lines)) == Ok((i, ParseHeader(name, lines[i]).value))
  {
    NoEarlierRawHeader(name, lines, i);
    FirstRawHeader(name, lines, i);
    StripKeepsHeaderPrefix(name, lines[i]);
    FirstStrippedHeader(name, lines, i);
  }

  /** A line the raw search accepts is one the stripped search stops at, so
      none comes before the first stripped match. */
  lemma NoEarlierRawHeader(name: string, lines: seq<string>, i: nat)
    requires |name| > 0 && NoSpace(name) && i <= |lines|
    requires forall j | 0 <= j < i :: !(name <= Strip(lines[j]))
    ensures forall j | 1 <= j < i :: ParseHeader(name, lines[j]).None?
  {
    forall j | 1 <= j < i
      ensures ParseHeader(name, lines[j]).None?
    {
      if ParseHeader(name, lines[j]).Some? {
        StripKeepsHeaderPrefix(name, lines[j]);
      }
    }
  }

  lemma FirstStrippedHeader(name: string, lines: seq<string>, i: nat)
    requires i < |lines| && Strip(lines[i]) == lines[i] && name <= lines[i]
    requires ParseHeader(name, lines[i]).Some?
    requires forall j | 0 <= j < i :: !(name <= Strip(lines[j]))
    ensures FirstHeader(name, StripAll(lines)) == Ok((i, ParseHeader(name, lines[i]).value))
  {
    var stripped := StripAll(lines);
    StripAllAt(lines, i);
    forall j | 0 <= j < i
      ensures !(name <= stripped[j])
    {
      StripAllAt(lines, j);
    }
    FirstPrefixed(name, stripped, 0, i);
  }

  lemma FirstRawHeader(name: string, lines: seq<string>, i: nat)
    requires 1 <= i < |lines| && ParseHeader(name, lines[i]).Some?
    requires forall j | 1 <= j < i :: ParseHeader(name, lines[j]).None?
    ensures FindRawHeader(name, lines, 1) == Some(i)
  {
    FirstRawHeaderFrom(name, lines, 1, i);
  }

  lemma {:induction false} FirstRawHeaderFrom(name: string, lines: seq<string>, k: nat, i: nat)
    requires k <= i < |lines| && ParseHeader(name, lines[i]).Some?
    requires forall j | k <= j < i :: ParseHeader(name, lines[j]).None?
    ensures FindRawHeader(name, lines, k) == Some(i)
    decreases i - k
  {
    if k < i {
      FirstRawHeaderFrom(name, lines, k + 1, i);
    }
  }

  lemma {:induction false} FirstPrefixed(name: string, stripped: seq<string>, k: nat, i: nat)
    requires k <= i < |stripped| && name <= stripped[i]
    requires forall j | k <= j < i :: !(name <= stripped[j])
    ensures FindPrefixed(name, stripped, k) == Some(i)
    decreases i - k
  {
    if k < i {
      FirstPrefixed(name, stripped, k + 1, i);
    }
  }

  /** Stripping a header line keeps the (whitespace-free) name at its start,
      so a line the raw search accepts is also one the stripped search stops at. */
  lemma StripKeepsHeaderPrefix(name: string, line: string)
    requires |name| > 0 && NoSpace(name)
    requires ParseHeader(name, line).Some?
    ensures name <= Strip(line)
  {
    var h := ParseHeader(name, line).value;
    HeaderShape(name, line);
    var p := |name| + 1 + |h.state|;
    assert line[p - 1] == h.state[|h.state| - 1];
    var t := RStrip(line);
    RStripSound(line);
    LStripSound(t);
    assert |t| >= p;
    assert name <= t;
    assert t[0] == name[0];
    assert LStrip(t) == t;
  }
}

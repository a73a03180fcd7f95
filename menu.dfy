/** What both script revisions share about dmenu: the command line that
    starts the selector (dmenu_cmd) and the menu of places a display can be
    put relative to the active ones (select_position). */
module Menu {
  import opened Outcomes
  import opened Text

  // ---------------------------------------------------------------- selector command

  /** The options of the `[dmenu]` section of config.ini, in file order, as
      the config parser hands them over. */
  type Section = seq<(string, string)>

  /** No option is given twice: the config parser refuses such a file. */
  predicate DistinctKeys(pairs: Section)
  {
    forall i, j | 0 <= i < j < |pairs| :: pairs[i].0 != pairs[j].0
  }

  /** How the selector is set up: the `[dmenu]` section of config.ini, if
      the file has one, and the shell-word splitter (`shlex.split`) applied to
      its `dmenu_command`. */
  datatype Config = Config(section: Option<Section>, shellSplit: string -> seq<string>)
  {
    predicate Valid()
    {
      section.Some? ==> DistinctKeys(section.value)
    }
  }

  /** `args_dict[key]`, or None when the key is absent. */
  function Lookup(pairs: Section, key: string): (v: Option<string>)
    ensures v.Some? <==> exists i | 0 <= i < |pairs| :: pairs[i].0 == key
    ensures v.Some? ==> (key, v.value) in pairs
  {
    if pairs == [] then None
    else if pairs[0].0 == key then Some(pairs[0].1)
    else
      var v := Lookup(pairs[1..], key);
      assert forall i | 1 <= i < |pairs| :: pairs[i] == pairs[1..][i - 1];
      v
  }

  /** The options dmenu_cmd consumes itself and never forwards as flags. */
  const Reserved: set<string> := {"dmenu_command", "p", "pinentry"}

  /** The section once `del args_dict[...]` has removed the given keys. */
  function Without(pairs: Section, keys: set<string>): (rest: Section)
    ensures |rest| <= |pairs|
  {
    if pairs == [] then []
    else if pairs[0].0 in keys then Without(pairs[1..], keys)
    else [pairs[0]] + Without(pairs[1..], keys)
  }

  /** Exactly the options whose keys were not removed are kept. */
  lemma {:induction false} WithoutMembers(pairs: Section, keys: set<string>)
    ensures forall x | x in Without(pairs, keys) :: x in pairs && x.0 !in keys
    ensures forall x | x in pairs && x.0 !in keys :: x in Without(pairs, keys)
  {
    if pairs != [] {
      WithoutMembers(pairs[1..], keys);
      assert pairs == [pairs[0]] + pairs[1..];
    }
  }

  /** Where the options Without keeps sit in the section: at increasing
      positions, so they stay in file order and none is repeated. */
  ghost function KeptAt(pairs: Section, keys: set<string>): (idx: seq<nat>)
  {
    if pairs == [] then []
    else
      var later := Shifted(KeptAt(pairs[1..], keys));
      if pairs[0].0 in keys then later else [0] + later
  }

  ghost function Shifted(xs: seq<nat>): (ys: seq<nat>)
    ensures |ys| == |xs| && forall m | 0 <= m < |xs| :: ys[m] == xs[m] + 1
  {
    if xs == [] then [] else [xs[0] + 1] + Shifted(xs[1..])
  }

  /** The kept options are the options at those positions. */
  lemma {:induction false} KeptAtSound(pairs: Section, keys: set<string>)
    ensures |KeptAt(pairs, keys)| == |Without(pairs, keys)|
    ensures forall m | 0 <= m < |KeptAt(pairs, keys)| ::
      KeptAt(pairs, keys)[m] < |pairs| && pairs[KeptAt(pairs, keys)[m]] == Without(pairs, keys)[m]
  {
    if pairs != [] {
      KeptAtSound(pairs[1..], keys);
      var tail := Without(pairs[1..], keys);
      var later := KeptAt(pairs[1..], keys);
      var shifted := Shifted(later);
      forall m | 0 <= m < |later|
        ensures shifted[m] < |pairs| && pairs[shifted[m]] == tail[m]
      {
        assert pairs[shifted[m]] == pairs[1..][later[m]];
      }
      if pairs[0].0 !in keys {
        assert Without(pairs, keys) == [pairs[0]] + tail;
      }
    }
  }

  /** The positions increase, so the kept options stay in file order. */
  lemma {:induction false} KeptAtIncreasing(pairs: Section, keys: set<string>)
    ensures forall m, n | 0 <= m < n < |KeptAt(pairs, keys)| :: KeptAt(pairs, keys)[m] < KeptAt(pairs, keys)[n]
  {
    if pairs != [] {
      KeptAtIncreasing(pairs[1..], keys);
      var later := KeptAt(pairs[1..], keys);
      var shifted := Shifted(later);
      forall m, n | 0 <= m < n < |shifted|
        ensures shifted[m] < shifted[n]
      {
        assert later[m] < later[n];
      }
      if pairs[0].0 !in keys {
        var idx := [0] + shifted;
        forall m, n | 0 <= m < n < |idx|
          ensures idx[m] < idx[n]
        {
          assert idx[n] == shifted[n - 1];
          if m > 0 {
            assert idx[m] == shifted[m - 1];
          }
        }
      }
    }
  }

  /** Options with distinct keys stay distinct once some are removed. */
  lemma WithoutDistinct(pairs: Section, keys: set<string>)
    requires DistinctKeys(pairs)
    ensures DistinctKeys(Without(pairs, keys))
  {
    var rest := Without(pairs, keys);
    var idx := KeptAt(pairs, keys);
    KeptAtSound(pairs, keys);
    KeptAtIncreasing(pairs, keys);
    forall m, n | 0 <= m < n < |rest|
      ensures rest[m].0 != rest[n].0
    {
      assert rest[m] == pairs[idx[m]] && rest[n] == pairs[idx[n]];
    }
  }

  /** `itertools.chain` over `["-" + k, v]` for each remaining option. */
  function Flags(pairs: Section): (flags: seq<string>)
    ensures |flags| == 2 * |pairs|
  {
    if pairs == [] then []
    else ["-" + pairs[0].0, pairs[0].1] + Flags(pairs[1..])
  }

  /** Option `m` becomes the flag pair at positions `2m` and `2m + 1`. */
  lemma {:induction false} FlagsAt(pairs: Section, m: nat)
    requires m < |pairs|
    ensures Flags(pairs)[2 * m] == "-" + pairs[m].0 && Flags(pairs)[2 * m + 1] == pairs[m].1
  {
    if m > 0 {
      FlagsAt(pairs[1..], m - 1);
      assert pairs[1..][m - 1] == pairs[m];
    }
  }

  /** The flags inserted right after the program: rofi wants its dmenu mode
      and `-lines`, anything else `-l`; both get `-i`. */
  function CountFlags(program: string): (flags: seq<string>)
    ensures IsSubstring("rofi", program) ==> flags == ["-i", "-dmenu", "-lines"]
    ensures !IsSubstring("rofi", program) ==> flags == ["-i", "-l"]
  {
    if IsSubstring("rofi", program) then ["-i", "-dmenu", "-lines"] else ["-i", "-l"]
  }

  /** The words of the selector command: the configured `dmenu_command`
      split as a shell would, or plain `dmenu`. */
  function CommandWords(pairs: Section, shellSplit: string -> seq<string>): (words: seq<string>)
    ensures (exists i | 0 <= i < |pairs| :: pairs[i].0 == "dmenu_command" && words == shellSplit(pairs[i].1))
            || ((forall i | 0 <= i < |pairs| :: pairs[i].0 != "dmenu_command") && words == ["dmenu"])
  {
    match Lookup(pairs, "dmenu_command")
    case None => ["dmenu"]
    case Some(c) => shellSplit(c)
  }

  /** The prompt shown: the configured `p` replaces only the default prompt
      "Displays". */
  function ShownPrompt(pairs: Section, prompt: string): (shown: string)
    ensures prompt != "Displays" ==> shown == prompt
  {
    match Lookup(pairs, "p")
    case Some(p) => if prompt == "Displays" then p else prompt
    case None => prompt
  }

  /** A prompt other than the caller's is the value of the `p` option, and
      without a `p` option the caller's prompt is shown. */
  lemma ShownPromptSource(pairs: Section, prompt: string)
    ensures ShownPrompt(pairs, prompt) == prompt || ("p", ShownPrompt(pairs, prompt)) in pairs
    ensures (forall i | 0 <= i < |pairs| :: pairs[i].0 != "p") ==> ShownPrompt(pairs, prompt) == prompt
  {
  }

  /** dmenu_cmd: the command line that shows `numLines` entries under
      `prompt`. Without a `[dmenu]` section it is `dmenu -i -l N -p PROMPT`;
      with one, the configured program comes first, then the count flags,
      the count, the prompt, the program's own arguments and one flag pair
      per remaining option. An empty `dmenu_command` makes `command[0]`
      fail. The shell-word splitter is a parameter. */
  function DmenuCmd(numLines: nat, prompt: string, section: Option<Section>, shellSplit: string -> seq<string>): (r: Result<seq<string>>)
    requires section.Some? ==> DistinctKeys(section.value)
    ensures r.Err? <==> section.Some? && CommandWords(section.value, shellSplit) == []
    ensures r.Err? ==> r.failure == EmptyCommand
    ensures r.Ok? ==> |r.value| >= 5 && r.value[1] == "-i"
    ensures section.None? ==> r.Ok? && |r.value| == 6 && r.value[0] == "dmenu" && r.value[2] == "-l"
                              && r.value[4] == "-p" && r.value[5] == prompt
    ensures r.Ok? && section.Some? ==> r.value[0] == CommandWords(section.value, shellSplit)[0]
  {
    match section
    case None => Ok(["dmenu", "-i", "-l", NatToString(numLines), "-p", prompt])
    case Some(pairs) =>
      var words := CommandWords(pairs, shellSplit);
      if words == [] then Err(EmptyCommand)
      else
        Ok([words[0]] + CountFlags(words[0]) + [NatToString(numLines), "-p", ShownPrompt(pairs, prompt)]
           + words[1..] + Flags(Without(pairs, Reserved)))
  }

  /** Plain `dmenu` is not rofi, so it gets `-i -l`. */
  lemma DmenuIsNotRofi()
    ensures CountFlags("dmenu") == ["-i", "-l"]
  {
    SubstringAt("rofi", "dmenu");
    forall i | 0 <= i <= |"dmenu"| - |"rofi"|
      ensures !OccursAt("rofi", "dmenu", i)
    {
      assert "dmenu"[i] != 'r';
    }
  }

  /** An empty `[dmenu]` section gives the same command as none at all. */
  lemma EmptySectionIsDefault(numLines: nat, prompt: string, shellSplit: string -> seq<string>)
    ensures DmenuCmd(numLines, prompt, Some([]), shellSplit) == DmenuCmd(numLines, prompt, None, shellSplit)
  {
    DmenuIsNotRofi();
    assert CommandWords([], shellSplit) == ["dmenu"];
    assert ShownPrompt([], prompt) == prompt;
    assert Flags(Without([], Reserved)) == [];
    assert ["dmenu"] + ["-i", "-l"] + [NatToString(numLines), "-p", prompt] + ["dmenu"][1..] + []
      == ["dmenu", "-i", "-l", NatToString(numLines), "-p", prompt];
  }

  /** The count and the prompt sit right after the count flags: the count
      reads back as `numLines`, and the prompt is the caller's, or the
      configured `p` when the caller asked for the default "Displays". */
  lemma DmenuCmdCountAndPrompt(numLines: nat, prompt: string, section: Option<Section>, shellSplit: string -> seq<string>)
    requires section.Some? ==> DistinctKeys(section.value)
    ensures var r := DmenuCmd(numLines, prompt, section, shellSplit);
      r.Ok? ==>
        var k := |CountFlags(r.value[0])| + 1;
        && k + 3 <= |r.value|
        && r.value[k - 1] in {"-l", "-lines"}
        && AllDigits(r.value[k]) && DecimalValue(r.value[k]) == numLines
        && r.value[k + 1] == "-p"
        && r.value[k + 2] ==
             (if section.Some? && prompt == "Displays" && Lookup(section.value, "p").Some?
              then Lookup(section.value, "p").value else prompt)
  {
    var r := DmenuCmd(numLines, prompt, section, shellSplit);
    if r.Ok? {
      if section.Some? {
        ConfiguredHead(numLines, prompt, section.value, shellSplit);
        HeadLayout(r.value[0], numLines, ShownPrompt(section.value, prompt));
      } else {
        DmenuIsNotRofi();
        DecimalRoundTrip(numLines);
      }
    }
  }

  lemma ConfiguredHead(numLines: nat, prompt: string, pairs: Section, shellSplit: string -> seq<string>)
    requires DistinctKeys(pairs)
    ensures var r := DmenuCmd(numLines, prompt, Some(pairs), shellSplit);
      var shown := ShownPrompt(pairs, prompt);
      r.Ok? ==>
        var head := [r.value[0]] + CountFlags(r.value[0]) + [NatToString(numLines), "-p", shown];
        && |head| <= |r.value| && r.value[..|head|] == head
        && shown == (if prompt == "Displays" && Lookup(pairs, "p").Some? then Lookup(pairs, "p").value else prompt)
  {
    var r := DmenuCmd(numLines, prompt, Some(pairs), shellSplit);
    if r.Ok? {
      var words := CommandWords(pairs, shellSplit);
      var head := [words[0]] + CountFlags(words[0]) + [NatToString(numLines), "-p", ShownPrompt(pairs, prompt)];
      assert r.value == head + words[1..] + Flags(Without(pairs, Reserved));
      assert r.value[..|head|] == head;
    }
  }

  lemma ConfiguredSplits(numLines: nat, prompt: string, pairs: Section, shellSplit: string -> seq<string>)
    requires DistinctKeys(pairs)
    ensures var r := DmenuCmd(numLines, prompt, Some(pairs), shellSplit);
      r.Ok? ==>
        r.value == [r.value[0]] + CountFlags(r.value[0]) + [NatToString(numLines), "-p", ShownPrompt(pairs, prompt)]
                   + (CommandWords(pairs, shellSplit)[1..] + Flags(Without(pairs, Reserved)))
  {
  }

  /** The program's own arguments (the words of `dmenu_command` after the
      first) sit between the prompt and the forwarded flags. */
  lemma DmenuCmdProgramArgs(numLines: nat, prompt: string, pairs: Section, shellSplit: string -> seq<string>)
    requires DistinctKeys(pairs)
    ensures var r := DmenuCmd(numLines, prompt, Some(pairs), shellSplit);
      var kept := Without(pairs, Reserved);
      r.Ok? ==>
        var k := |CountFlags(r.value[0])| + 1;
        && k + 3 <= |r.value| - 2 * |kept|
        && r.value[k + 3..|r.value| - 2 * |kept|] == CommandWords(pairs, shellSplit)[1..]
  {
    var r := DmenuCmd(numLines, prompt, Some(pairs), shellSplit);
    if r.Ok? {
      ConfiguredSplits(numLines, prompt, pairs, shellSplit);
      var head := [r.value[0]] + CountFlags(r.value[0]) + [NatToString(numLines), "-p", ShownPrompt(pairs, prompt)];
      var args := CommandWords(pairs, shellSplit)[1..];
      var flags := Flags(Without(pairs, Reserved));
      assert r.value == head + args + flags;
      assert r.value[|head|..|r.value| - |flags|] == args;
    }
  }

  lemma HeadLayout(program: string, numLines: nat, shown: string)
    ensures var head := [program] + CountFlags(program) + [NatToString(numLines), "-p", shown];
      var k := |CountFlags(program)| + 1;
      && |head| == k + 3 && head[0] == program
      && head[k - 1] in {"-l", "-lines"}
      && AllDigits(head[k]) && DecimalValue(head[k]) == numLines
      && head[k + 1] == "-p" && head[k + 2] == shown
  {
    DecimalRoundTrip(numLines);
  }

  /** The forwarded flags end the command: each is `-KEY VALUE` for an option
      that dmenu_cmd does not consume, every such option is forwarded, and
      none twice. */
  lemma DmenuCmdForwardsOptions(numLines: nat, prompt: string, pairs: Section, shellSplit: string -> seq<string>)
    requires DistinctKeys(pairs)
    ensures var r := DmenuCmd(numLines, prompt, Some(pairs), shellSplit);
      var kept := Without(pairs, Reserved);
      r.Ok? ==>
        && 2 * |kept| <= |r.value|
        && (forall m | 0 <= m < |kept| ::
              r.value[|r.value| - 2 * |kept| + 2 * m] == "-" + kept[m].0
              && r.value[|r.value| - 2 * |kept| + 2 * m + 1] == kept[m].1)
        && (forall m | 0 <= m < |kept| :: kept[m].0 !in Reserved && kept[m] in pairs)
        && (forall x | x in pairs && x.0 !in Reserved :: x in kept)
        && DistinctKeys(kept)
  {
    WithoutDistinct(pairs, Reserved);
    WithoutMembers(pairs, Reserved);
    DmenuCmdFlags(numLines, prompt, pairs, shellSplit);
  }

  lemma DmenuCmdFlags(numLines: nat, prompt: string, pairs: Section, shellSplit: string -> seq<string>)
    requires DistinctKeys(pairs)
    ensures var r := DmenuCmd(numLines, prompt, Some(pairs), shellSplit);
      var kept := Without(pairs, Reserved);
      r.Ok? ==>
        && 2 * |kept| <= |r.value|
        && (forall m | 0 <= m < |kept| ::
              r.value[|r.value| - 2 * |kept| + 2 * m] == "-" + kept[m].0
              && r.value[|r.value| - 2 * |kept| + 2 * m + 1] == kept[m].1)
  {
    var r := DmenuCmd(numLines, prompt, Some(pairs), shellSplit);
    if r.Ok? {
      var kept := Without(pairs, Reserved);
      var tail := r.value[|r.value| - 2 * |kept|..];
      assert tail == Flags(kept);
      forall m | 0 <= m < |kept|
        ensures r.value[|r.value| - 2 * |kept| + 2 * m] == "-" + kept[m].0
        ensures r.value[|r.value| - 2 * |kept| + 2 * m + 1] == kept[m].1
      {
        FlagsAt(kept, m);
        assert tail[2 * m] == r.value[|r.value| - 2 * |kept| + 2 * m];
        assert tail[2 * m + 1] == r.value[|r.value| - 2 * |kept| + 2 * m + 1];
      }
    }
  }

  // ---------------------------------------------------------------- position menu

  /** positions_cmd: each menu word and the xrandr option it stands for, in
      insertion order. */
  const PositionFlags: seq<(string, string)> :=
    [("Same as", "--same-as"), ("Left of", "--left-of"), ("Right of", "--right-of"),
     ("Below", "--below"), ("Above", "--above")]

  /** The menu entry `"{} {}".format(pos, displ.name)`. */
  function PositionLabel(p: nat, name: string): (l: string)
    requires p < |PositionFlags|
    ensures |l| == |PositionFlags[p].0| + 1 + |name|
    ensures l[|PositionFlags[p].0| + 1..] == name
  {
    PositionFlags[p].0 + " " + name
  }

  /** What choosing that entry adds to the xrandr command. */
  function PositionArgs(p: nat, name: string): seq<string>
    requires p < |PositionFlags|
  {
    [PositionFlags[p].1, name]
  }

  /** An entry names its position and its display: the five words start
      with five different letters. */
  lemma PositionLabelInjective(p: nat, q: nat, x: string, y: string)
    requires p < |PositionFlags| && q < |PositionFlags|
    requires PositionLabel(p, x) == PositionLabel(q, y)
    ensures p == q && x == y
  {
    assert PositionLabel(p, x)[0] == PositionFlags[p].0[0];
    assert PositionLabel(q, y)[0] == PositionFlags[q].0[0];
  }

  /** The entries of one display for the first `p` positions. */
  function DisplayLabels(name: string, p: nat): (ls: seq<string>)
    requires p <= |PositionFlags|
    ensures |ls| == p
    ensures forall q | 0 <= q < p :: ls[q] == PositionLabel(q, name)
  {
    if p == 0 then [] else DisplayLabels(name, p - 1) + [PositionLabel(p - 1, name)]
  }

  /** The `commands` entries of one display for the first `p` positions. */
  function DisplayArgs(name: string, p: nat): (m: map<string, seq<string>>)
    requires p <= |PositionFlags|
    ensures forall l | l in m :: |m[l]| == 2 && m[l][1] == name
  {
    if p == 0 then map[] else DisplayArgs(name, p - 1)[PositionLabel(p - 1, name) := PositionArgs(p - 1, name)]
  }

  /** `inputs` once the loop has run over `names`. */
  function PositionMenu(names: seq<string>): (inputs: seq<string>)
    ensures |inputs| == |PositionFlags| * |names|
  {
    if names == [] then []
    else PositionMenu(names[..|names| - 1]) + DisplayLabels(names[|names| - 1], |PositionFlags|)
  }

  /** `commands` once the loop has run over `names`; a later entry with the
      same text replaces an earlier one, as a dict assignment does. */
  function PositionTable(names: seq<string>): (commands: map<string, seq<string>>)
    ensures forall l | l in commands :: |commands[l]| == 2 && commands[l][1] in names
  {
    if names == [] then map[]
    else PositionTable(names[..|names| - 1]) + DisplayArgs(names[|names| - 1], |PositionFlags|)
  }

  lemma {:induction false} DisplayArgsAt(name: string, p: nat, q: nat)
    requires q < p <= |PositionFlags|
    ensures PositionLabel(q, name) in DisplayArgs(name, p)
    ensures DisplayArgs(name, p)[PositionLabel(q, name)] == PositionArgs(q, name)
  {
    if q < p - 1 {
      DisplayArgsAt(name, p - 1, q);
      if PositionLabel(q, name) == PositionLabel(p - 1, name) {
        PositionLabelInjective(q, p - 1, name, name);
      }
    }
  }

  lemma {:induction false} DisplayArgsKeys(name: string, p: nat, l: string)
    requires p <= |PositionFlags| && l in DisplayArgs(name, p)
    ensures exists q | 0 <= q < p :: l == PositionLabel(q, name)
  {
    if l != PositionLabel(p - 1, name) {
      DisplayArgsKeys(name, p - 1, l);
    }
  }

  /** The menu lists five entries per display, position by position. */
  lemma {:induction false} PositionMenuAt(names: seq<string>)
    ensures |PositionMenu(names)| == |PositionFlags| * |names|
    ensures forall i, p | 0 <= i < |names| && 0 <= p < |PositionFlags| ::
      PositionMenu(names)[|PositionFlags| * i + p] == PositionLabel(p, names[i])
  {
    if names != [] {
      var pre := names[..|names| - 1];
      var last := DisplayLabels(names[|names| - 1], |PositionFlags|);
      PositionMenuAt(pre);
      assert PositionMenu(names) == PositionMenu(pre) + last;
      forall i, p | 0 <= i < |names| && 0 <= p < |PositionFlags|
        ensures PositionMenu(names)[|PositionFlags| * i + p] == PositionLabel(p, names[i])
      {
        if i < |pre| {
          assert |PositionFlags| * i + p < |PositionFlags| * (i + 1) <= |PositionFlags| * |pre|;
          assert names[i] == pre[i];
        } else {
          assert |PositionFlags| * i == |PositionMenu(pre)|;
          assert PositionMenu(names)[|PositionFlags| * i + p] == last[p];
        }
      }
    }
  }

  /** Choosing the entry of a position and a display gives exactly that
      position and display, whatever other displays the menu lists. */
  lemma {:induction false} PositionTableAt(names: seq<string>, i: nat, p: nat)
    requires i < |names| && p < |PositionFlags|
    ensures PositionLabel(p, names[i]) in PositionTable(names)
    ensures PositionTable(names)[PositionLabel(p, names[i])] == PositionArgs(p, names[i])
  {
    var pre := names[..|names| - 1];
    var last := names[|names| - 1];
    var l := PositionLabel(p, names[i]);
    if i < |pre| {
      assert names[i] == pre[i];
      PositionTableAt(pre, i, p);
      if l in DisplayArgs(last, |PositionFlags|) {
        DisplayArgsKeys(last, |PositionFlags|, l);
        var q :| 0 <= q < |PositionFlags| && l == PositionLabel(q, last);
        PositionLabelInjective(p, q, names[i], last);
        DisplayArgsAt(last, |PositionFlags|, p);
      }
    } else {
      DisplayArgsAt(last, |PositionFlags|, p);
    }
  }

  /** Every entry of the table is an entry of the menu. */
  lemma {:induction false} PositionTableKeys(names: seq<string>, l: string)
    requires l in PositionTable(names)
    ensures exists i, p | 0 <= i < |names| && 0 <= p < |PositionFlags| :: l == PositionLabel(p, names[i])
  {
    var pre := names[..|names| - 1];
    var last := names[|names| - 1];
    if l in DisplayArgs(last, |PositionFlags|) {
      DisplayArgsKeys(last, |PositionFlags|, l);
      var q :| 0 <= q < |PositionFlags| && l == PositionLabel(q, last);
      assert l == PositionLabel(q, names[|names| - 1]);
    } else {
      PositionTableKeys(pre, l);
      var i, p :| 0 <= i < |pre| && 0 <= p < |PositionFlags| && l == PositionLabel(p, pre[i]);
      assert l == PositionLabel(p, names[i]);
    }
  }

  /** One inner-loop step: adding entry `p` to the table built so far. */
  lemma TableEntryStep(table: map<string, seq<string>>, name: string, p: nat)
    requires p < |PositionFlags|
    ensures table + DisplayArgs(name, p + 1)
         == (table + DisplayArgs(name, p))[PositionLabel(p, name) := PositionArgs(p, name)]
  {
  }

  /** One outer-loop step: the entries of `names[i]` follow those of `names[..i]`. */
  lemma PositionPrefixStep(names: seq<string>, i: nat)
    requires i < |names|
    ensures PositionMenu(names[..i + 1]) == PositionMenu(names[..i]) + DisplayLabels(names[i], |PositionFlags|)
    ensures PositionTable(names[..i + 1]) == PositionTable(names[..i]) + DisplayArgs(names[i], |PositionFlags|)
  {
    assert names[..i + 1][..i] == names[..i];
  }

  /** select_position's two loops: the menu entries and the `commands` dict. */
  method PositionChoices(names: seq<string>) returns (inputs: seq<string>, commands: map<string, seq<string>>)
    ensures inputs == PositionMenu(names)
    ensures commands == PositionTable(names)
  {
    inputs, commands := [], map[];
    var i := 0;
    while i < |names|
      invariant i <= |names|
      invariant inputs == PositionMenu(names[..i])
      invariant commands == PositionTable(names[..i])
    {
      var p := 0;
      while p < |PositionFlags|
        invariant p <= |PositionFlags|
        invariant inputs == PositionMenu(names[..i]) + DisplayLabels(names[i], p)
        invariant commands == PositionTable(names[..i]) + DisplayArgs(names[i], p)
      {
        TableEntryStep(PositionTable(names[..i]), names[i], p);
        inputs := inputs + [PositionLabel(p, names[i])];
        commands := commands[inputs[|inputs| - 1] := PositionArgs(p, names[i])];
        p := p + 1;
      }
      PositionPrefixStep(names, i);
      i := i + 1;
    }
    assert names[..i] == names;
  }

  /** `commands[sel]`: the xrandr arguments of the chosen entry; a reply that
      is not an entry raises KeyError. */
  function PositionOf(names: seq<string>, sel: string): (r: Result<seq<string>>)
    ensures r.Ok? <==> sel in PositionTable(names)
    ensures r.Ok? ==> exists i, p | 0 <= i < |names| && 0 <= p < |PositionFlags| ::
      sel == PositionLabel(p, names[i]) && r.value == PositionArgs(p, names[i])
    ensures r.Err? ==> r.failure == UnknownLabel(sel)
  {
    var table := PositionTable(names);
    if sel in table then
      PositionTableKeys(names, sel);
      var i, p :| 0 <= i < |names| && 0 <= p < |PositionFlags| && sel == PositionLabel(p, names[i]);
      PositionTableAt(names, i, p);
      Ok(table[sel])
    else Err(UnknownLabel(sel))
  }
}

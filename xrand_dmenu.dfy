/** xrand-dmenu.py: one menu entry per connected display (its dmenu_repr);
    the display whose name occurs in the chosen entry is activated next to
    an active display, or deactivated. */
module XrandDmenu {
  import opened Outcomes
  import opened Text
  import opened StatusText
  import opened Menu

  // ---------------------------------------------------------------- selection

  /** get_selection: the entries go to the selector and its output `reply`
      comes back without trailing whitespace; a blank reply ends the script.
      The reply need not be one of the entries (dmenu lets the user type any
      text), and an empty list of entries is shown like any other. */
  function GetSelection(config: Config, prompt: string, inputs: seq<string>, reply: string): (r: Outcome<string>)
    requires config.Valid()
    ensures r.Done? ==> Trimmed(r.value)
  {
    if DmenuCmd(|inputs|, prompt, config.section, config.shellSplit).Err? then Fail(EmptyCommand)
    else
      var sel := RStrip(reply);
      RStripSound(reply);
      if sel == [] then Exit else Done(sel)
  }

  /** The selection is the reply up to its trailing whitespace, and the
      script ends exactly when the reply is all whitespace. */
  lemma GetSelectionSound(config: Config, prompt: string, inputs: seq<string>, reply: string)
    requires config.Valid() && DmenuCmd(|inputs|, prompt, config.section, config.shellSplit).Ok?
    ensures var r := GetSelection(config, prompt, inputs, reply);
      && !r.Fail?
      && (r.Exit? <==> AllSpace(reply))
      && (r.Done? ==> r.value <= reply && AllSpace(reply[|r.value|..]))
  {
    var sel := RStrip(reply);
    RStripSound(reply);
    if sel == [] {
      assert reply[|sel|..] == reply;
    } else {
      assert !IsSpace(reply[|sel| - 1]);
    }
  }

  /** The selector prints the chosen entry followed by a newline (or any
      whitespace): the selection is that entry again. */
  lemma GetSelectionPicks(config: Config, prompt: string, inputs: seq<string>, entry: string, ws: string)
    requires config.Valid() && DmenuCmd(|inputs|, prompt, config.section, config.shellSplit).Ok?
    requires Trimmed(entry) && AllSpace(ws)
    ensures GetSelection(config, prompt, inputs, entry + ws) == Done(entry)
  {
    RStripTrailing(entry, ws);
  }

  // ---------------------------------------------------------------- displays

  /** The fields of a display object, as a value. Every reading of the status
      text appends the resolution read, which may be None, to `resolutions`. */
  datatype DisplayState = DisplayState(
    name: string, connected: bool, active: bool, resolution: Option<string>, resolutions: seq<Option<string>>)

  /** dmenu_repr: the verb (spelled "Desactivate" for an active display),
      the name and a space, then the resolution in parentheses if any. */
  function DmenuRepr(s: DisplayState): (repr: string)
    ensures OccursAt(s.name, repr, if s.active then 12 else 9)
    ensures repr[|repr| - 1] == if s.resolution.Some? then ')' else ' '
  {
    (if s.active then "Desactivate " else "Activate ") + s.name + " "
    + (match s.resolution case Some(r) => "(" + r + ")" case None => "")
  }

  /** check_repr: the name occurs somewhere in the text. */
  predicate CheckRepr(s: DisplayState, repr: string)
    ensures CheckRepr(s, repr) ==> |s.name| <= |repr|
  {
    SubstringAt(s.name, repr);
    IsSubstring(s.name, repr)
  }

  /** check_repr holds exactly when the name sits at some offset of the text. */
  lemma CheckReprSound(s: DisplayState, repr: string)
    ensures CheckRepr(s, repr) <==> exists i :: OccursAt(s.name, repr, i)
  {
    SubstringAt(s.name, repr);
  }

  /** The entry tells whether the display is active: it starts with
      "Desactivate " exactly when it is, and with "Activate " otherwise. */
  lemma DmenuReprVerb(s: DisplayState)
    ensures "Desactivate " <= DmenuRepr(s) <==> s.active
    ensures "Activate " <= DmenuRepr(s) <==> !s.active
  {
    var r := DmenuRepr(s);
    if s.active {
      assert r[..12] == "Desactivate ";
      assert r[0] != 'A';
    } else {
      assert r[..9] == "Activate ";
      assert r[0] != 'D';
    }
  }

  /** What the selector hands back for an entry: the entry without the
      space that ends it when the resolution is unknown. */
  function ShownRepr(s: DisplayState): string
  {
    (if s.active then "Desactivate " else "Activate ") + s.name
    + (match s.resolution case Some(r) => " (" + r + ")" case None => "")
  }

  /** A display whose name is non-empty and free of whitespace shows as
      ShownRepr once the selector's reply is stripped, and its own name
      occurs in it, so check_repr accepts its own entry. */
  lemma ShownReprOfEntry(s: DisplayState, ws: string)
    requires |s.name| > 0 && NoSpace(s.name) && AllSpace(ws)
    ensures RStrip(DmenuRepr(s) + ws) == ShownRepr(s)
    ensures Trimmed(ShownRepr(s))
    ensures CheckRepr(s, ShownRepr(s))
  {
    var verb := if s.active then "Desactivate " else "Activate ";
    RStripTrailing(DmenuRepr(s), ws);
    match s.resolution
    case Some(r) =>
      assert DmenuRepr(s) == ShownRepr(s);
      assert ShownRepr(s)[|ShownRepr(s)| - 1] == ')';
      assert ShownRepr(s) == verb + s.name + (" (" + r + ")");
      SubstringOfConcat(verb, s.name, " (" + r + ")");
    case None =>
      assert DmenuRepr(s) == ShownRepr(s) + " ";
      assert ShownRepr(s)[|ShownRepr(s)| - 1] == s.name[|s.name| - 1];
      RStripTrailing(ShownRepr(s), " ");
      assert ShownRepr(s) == verb + s.name + "";
      SubstringOfConcat(verb, s.name, "");
  }

  /** check_repr is not an exact match (the script says so): a display
      named DP-1 accepts the entry of a display named DP-1-1. */
  lemma CheckReprNotExact()
    ensures var other := DisplayState("DP-1-1", true, false, None, [None]);
      && ShownRepr(other) == "Activate DP-1-1"
      && CheckRepr(DisplayState("DP-1", true, false, None, [None]), ShownRepr(other))
  {
    var shown := "Activate DP-1-1";
    assert shown[9..13] == "DP-1";
    assert OccursAt("DP-1", shown, 9);
    SubstringAt("DP-1", shown);
  }

  /** get_options: a disconnected display has none (the script raises);
      otherwise exactly one, "Deactivate" for an active display and
      "Activate" for an inactive one. */
  function GetOptions(s: DisplayState): (r: Result<seq<string>>)
    ensures r.Ok? <==> s.connected
    ensures r.Err? ==> r.failure == NotConnected(s.name)
    ensures r.Ok? ==> (|r.value| == 1
      && (r.value[0] == "Deactivate" <==> s.active)
      && (r.value[0] == "Activate" <==> !s.active))
  {
    if !s.connected then Err(NotConnected(s.name))
    else Ok(if s.active then ["Deactivate"] else ["Activate"])
  }

  // ---------------------------------------------------------------- the lists run builds

  /** `[displ for displ in displs if displ.active]`, by name. */
  function ActiveNames(states: seq<DisplayState>): (names: seq<string>)
    ensures |names| <= |states|
  {
    if states == [] then []
    else (if states[0].active then [states[0].name] else []) + ActiveNames(states[1..])
  }

  /** The active displays' names, in order: a name is listed exactly when
      some active display carries it. */
  lemma {:induction false} ActiveNamesSpec(states: seq<DisplayState>, name: string)
    ensures name in ActiveNames(states) <==> exists k | 0 <= k < |states| :: states[k].active && states[k].name == name
  {
    if states != [] {
      ActiveNamesSpec(states[1..], name);
      if exists k | 0 <= k < |states| - 1 :: states[1..][k].active && states[1..][k].name == name {
        var k :| 0 <= k < |states| - 1 && states[1..][k].active && states[1..][k].name == name;
        assert states[k + 1] == states[1..][k];
      }
      if exists k | 0 <= k < |states| :: states[k].active && states[k].name == name {
        var k :| 0 <= k < |states| && states[k].active && states[k].name == name;
        if k > 0 {
          assert states[1..][k - 1] == states[k];
        }
      }
    }
  }

  /** An active display and a second active name: some other display is active. */
  lemma {:induction false} AnotherActive(states: seq<DisplayState>, k: nat)
    requires k < |states| && states[k].active && |ActiveNames(states)| >= 2
    ensures exists other | 0 <= other < |states| :: other != k && states[other].active
  {
    var rest := states[1..];
    if k == 0 {
      assert |ActiveNames(rest)| >= 1;
      ActiveNamesSpec(rest, ActiveNames(rest)[0]);
      var j :| 0 <= j < |rest| && rest[j].active && rest[j].name == ActiveNames(rest)[0];
      assert states[j + 1] == rest[j];
    } else if states[0].active {
      assert 0 != k;
    } else {
      assert rest[k - 1] == states[k];
      AnotherActive(rest, k - 1);
      var j :| 0 <= j < |rest| && j != k - 1 && rest[j].active;
      assert states[j + 1] == rest[j];
    }
  }

  /** A display that is the only active one leaves a single active name. */
  lemma {:induction false} OnlyActive(states: seq<DisplayState>, k: nat)
    requires k < |states| && states[k].active
    requires forall j | 0 <= j < |states| && j != k :: !states[j].active
    ensures ActiveNames(states) == [states[k].name]
  {
    var rest := states[1..];
    if k == 0 {
      NoneActive(rest);
    } else {
      assert !states[0].active;
      assert rest[k - 1] == states[k];
      forall j | 0 <= j < |rest| && j != k - 1
        ensures !rest[j].active
      {
        assert rest[j] == states[j + 1];
      }
      OnlyActive(rest, k - 1);
    }
  }

  lemma {:induction false} NoneActive(states: seq<DisplayState>)
    requires forall j | 0 <= j < |states| :: !states[j].active
    ensures ActiveNames(states) == []
  {
    if states != [] {
      assert forall j | 0 <= j < |states| - 1 :: states[1..][j] == states[j + 1];
      NoneActive(states[1..]);
    }
  }

  /** `[d.dmenu_repr() for d in connected_displs]`. */
  function ConnectedReprs(states: seq<DisplayState>): (reprs: seq<string>)
    ensures |reprs| <= |states|
  {
    if states == [] then []
    else (if states[0].connected then [DmenuRepr(states[0])] else []) + ConnectedReprs(states[1..])
  }

  /** The menu lists the entry of every connected display, and only those. */
  lemma {:induction false} ConnectedReprsSpec(states: seq<DisplayState>, entry: string)
    ensures entry in ConnectedReprs(states) <==> exists k | 0 <= k < |states| :: states[k].connected && DmenuRepr(states[k]) == entry
  {
    if states != [] {
      ConnectedReprsSpec(states[1..], entry);
      if exists k | 0 <= k < |states| - 1 :: states[1..][k].connected && DmenuRepr(states[1..][k]) == entry {
        var k :| 0 <= k < |states| - 1 && states[1..][k].connected && DmenuRepr(states[1..][k]) == entry;
        assert states[k + 1] == states[1..][k];
      }
      if exists k | 0 <= k < |states| :: states[k].connected && DmenuRepr(states[k]) == entry {
        var k :| 0 <= k < |states| && states[k].connected && DmenuRepr(states[k]) == entry;
        if k > 0 {
          assert states[1..][k - 1] == states[k];
        }
      }
    }
  }

  /** `[d for d in displs if d.check_repr(sel)][0]`, from display `k` on:
      the index of the first display, connected or not, whose name occurs in
      the selection. */
  function FirstMatch(states: seq<DisplayState>, sel: string, k: nat): (r: Option<nat>)
    requires k <= |states|
    ensures r.Some? ==> k <= r.value < |states|
    decreases |states| - k
  {
    if k == |states| then None
    else if CheckRepr(states[k], sel) then Some(k)
    else FirstMatch(states, sel, k + 1)
  }

  /** The match found is a display that accepts the selection and no
      earlier one does; no match means no display does. */
  lemma {:induction false} FirstMatchSpec(states: seq<DisplayState>, sel: string, k: nat)
    requires k <= |states|
    ensures var r := FirstMatch(states, sel, k);
      && (r.Some? ==> CheckRepr(states[r.value], sel))
      && (forall j | k <= j < (if r.Some? then r.value else |states|) :: !CheckRepr(states[j], sel))
    decreases |states| - k
  {
    if k < |states| && !CheckRepr(states[k], sel) {
      FirstMatchSpec(states, sel, k + 1);
    }
  }

  /** A display that accepts the selection, after none that do, is the match. */
  lemma {:induction false} FirstMatchAt(states: seq<DisplayState>, sel: string, k: nat, i: nat)
    requires k <= i < |states| && CheckRepr(states[i], sel)
    requires forall j | k <= j < i :: !CheckRepr(states[j], sel)
    ensures FirstMatch(states, sel, k) == Some(i)
    decreases i - k
  {
    if k < i {
      FirstMatchAt(states, sel, k + 1, i);
    }
  }

  // ---------------------------------------------------------------- what an action runs

  /** select_position: the entry chosen from the position menu of the active
      displays, and the xrandr arguments it stands for. */
  function ChosenPlace(names: seq<string>, config: Config, reply: string): (r: Outcome<seq<string>>)
    requires config.Valid()
    ensures r.Done? ==> |r.value| == 2 && r.value[1] in names
  {
    match GetSelection(config, "Where ", PositionMenu(names), reply)
    case Exit => Exit
    case Fail(e) => Fail(e)
    case Done(sel) =>
      match PositionOf(names, sel)
      case Ok(args) => Done(args)
      case Err(e) => Fail(e)
  }

  /** Replying with the entry of a position relative to an active display
      yields exactly that position and display. */
  lemma ChosenPlacePicks(names: seq<string>, config: Config, i: nat, p: nat, ws: string)
    requires config.Valid() && i < |names| && p < |PositionFlags| && Trimmed(names[i]) && AllSpace(ws)
    requires DmenuCmd(|PositionFlags| * |names|, "Where ", config.section, config.shellSplit).Ok?
    ensures ChosenPlace(names, config, PositionLabel(p, names[i]) + ws) == Done(PositionArgs(p, names[i]))
  {
    PositionMenuAt(names);
    var l := PositionLabel(p, names[i]);
    assert l[|l| - 1] == names[i][|names[i]| - 1];
    GetSelectionPicks(config, "Where ", PositionMenu(names), l, ws);
    PositionTableAt(names, i, p);
  }

  /** A completed choice is a position relative to one of the active displays. */
  lemma ChosenPlaceSound(names: seq<string>, config: Config, reply: string)
    requires config.Valid()
    ensures var r := ChosenPlace(names, config, reply);
      r.Done? ==> exists i, p | 0 <= i < |names| && 0 <= p < |PositionFlags| :: r.value == PositionArgs(p, names[i])
  {
  }

  /** With no active display the position menu is empty, so whatever the
      reply, activation never completes. */
  lemma NoPlaceWithoutActiveDisplay(config: Config, reply: string)
    requires config.Valid()
    ensures !ChosenPlace([], config, reply).Done?
  {
    assert PositionTable([]) == map[];
  }

  /** activate: refused on an active display; otherwise `xrandr --output N`,
      the chosen position and `--auto`. */
  function ActivateCommand(s: DisplayState, activeNames: seq<string>, config: Config, reply: string): (r: Outcome<seq<string>>)
    requires config.Valid()
    ensures s.active ==> r == Fail(AlreadyActive(s.name))
    ensures r.Done? ==> |r.value| == 6 && r.value[2] == s.name && r.value[4] in activeNames && r.value[5] == "--auto"
  {
    if s.active then Fail(AlreadyActive(s.name))
    else
      match ChosenPlace(activeNames, config, reply)
      case Exit => Exit
      case Fail(e) => Fail(e)
      case Done(position) => Done(["xrandr", "--output", s.name] + position + ["--auto"])
  }

  /** An activation command places the display next to an active one: it is
      `xrandr --output N FLAG OTHER --auto` with FLAG OTHER one of the
      position menu's entries. */
  lemma ActivateCommandShape(s: DisplayState, activeNames: seq<string>, config: Config, reply: string)
    requires config.Valid()
    ensures var r := ActivateCommand(s, activeNames, config, reply);
      && (s.active ==> r == Fail(AlreadyActive(s.name)))
      && (activeNames == [] ==> !r.Done?)
      && (r.Done? ==>
            && |r.value| == 6 && r.value[..3] == ["xrandr", "--output", s.name] && r.value[5] == "--auto"
            && exists i, p | 0 <= i < |activeNames| && 0 <= p < |PositionFlags| :: r.value[3..5] == PositionArgs(p, activeNames[i]))
  {
    if !s.active {
      NoPlaceWithoutActiveDisplay(config, reply);
      var c := ChosenPlace(activeNames, config, reply);
      if c.Done? {
        ChosenPlaceSound(activeNames, config, reply);
        var i, p :| 0 <= i < |activeNames| && 0 <= p < |PositionFlags| && c.value == PositionArgs(p, activeNames[i]);
        var r := ["xrandr", "--output", s.name] + c.value + ["--auto"];
        assert ActivateCommand(s, activeNames, config, reply) == Done(r);
        assert r[3..5] == c.value;
      }
    }
  }

  /** deactivate: refused on an inactive display; otherwise
      `xrandr --output N --off`. */
  function DeactivateCommand(s: DisplayState): (r: Result<seq<string>>)
    ensures r.Ok? <==> s.active
    ensures r.Err? ==> r.failure == NotActive(s.name)
  {
    if !s.active then Err(NotActive(s.name))
    else Ok(["xrandr", "--output", s.name, "--off"])
  }

  /** change_resolution: `xrandr --output N --mode M`, only for a mode the
      display has recorded. */
  function ResolutionCommand(s: DisplayState, mode: string): (r: Result<seq<string>>)
    ensures r.Ok? <==> Some(mode) in s.resolutions
    ensures r.Err? ==> r.failure == NotAvailable(mode)
    ensures r.Ok? ==> |r.value| == 5 && r.value[2] == s.name && r.value[4] == mode
  {
    if Some(mode) !in s.resolutions then Err(NotAvailable(mode))
    else Ok(["xrandr", "--output", s.name, "--mode", mode])
  }

  // ---------------------------------------------------------------- run

  /** What run does once a display is picked: an xrandr command on that
      display, which is active afterwards or not, or the refusal to turn
      off the last active display (the script prints a message and returns). */
  datatype Effect = Ran(display: nat, command: seq<string>, active: bool) | KeptLast(display: nat)

  /** run after the selection: the picked display's one option, carried out. */
  function Perform(states: seq<DisplayState>, k: nat, config: Config, reply: string): (r: Outcome<Effect>)
    requires config.Valid() && k < |states|
    ensures r.Done? ==> r.value.display == k && states[k].connected
  {
    var s := states[k];
    var activeNames := ActiveNames(states);
    match GetOptions(s)
    case Err(e) => Fail(e)
    case Ok(opts) =>
      if opts[0] == "Activate" then
        match ActivateCommand(s, activeNames, config, reply)
        case Done(c) => Done(Ran(k, c, true))
        case Exit => Exit
        case Fail(e) => Fail(e)
      else if |activeNames| == 1 then Done(KeptLast(k))
      else
        match DeactivateCommand(s)
        case Ok(c) => Done(Ran(k, c, false))
        case Err(e) => Fail(e)
  }

  /** run: the entries of the connected displays, the reply of the
      selector, the first display whose name occurs in it, and its action. */
  function RunSpec(states: seq<DisplayState>, config: Config, menuReply: string, actionReply: string): (r: Outcome<Effect>)
    requires config.Valid()
    ensures r.Done? ==> r.value.display < |states| && states[r.value.display].connected
  {
    match GetSelection(config, "Displays : ", ConnectedReprs(states), menuReply)
    case Exit => Exit
    case Fail(e) => Fail(e)
    case Done(sel) =>
      match FirstMatch(states, sel, 0)
      case None => Fail(NoMatchingDisplay(sel))
      case Some(k) => Perform(states, k, config, actionReply)
  }

  /** Whatever the replies, a display acted on is connected, it is the first
      whose name occurs in the selection, and the selection is that reply
      without its trailing whitespace. */
  lemma RunActsOnFirstMatch(states: seq<DisplayState>, config: Config, menuReply: string, actionReply: string)
    requires config.Valid()
    ensures var r := RunSpec(states, config, menuReply, actionReply);
      r.Done? ==>
        var k := r.value.display;
        var sel := RStrip(menuReply);
        && k < |states| && states[k].connected
        && CheckRepr(states[k], sel)
        && forall j | 0 <= j < k :: !CheckRepr(states[j], sel)
  {
    var r := RunSpec(states, config, menuReply, actionReply);
    if r.Done? {
      var sel := GetSelection(config, "Displays : ", ConnectedReprs(states), menuReply).value;
      FirstMatchSpec(states, sel, 0);
    }
  }

  /** Replying with the entry of connected display `k` carries out that
      display's option, provided no display listed before it has a name
      that occurs in the entry. */
  lemma RunDispatch(states: seq<DisplayState>, config: Config, k: nat, ws: string, actionReply: string)
    requires config.Valid() && k < |states| && states[k].connected && AllSpace(ws)
    requires |states[k].name| > 0 && NoSpace(states[k].name)
    requires DmenuCmd(|ConnectedReprs(states)|, "Displays : ", config.section, config.shellSplit).Ok?
    requires forall j | 0 <= j < k :: !CheckRepr(states[j], ShownRepr(states[k]))
    ensures RunSpec(states, config, DmenuRepr(states[k]) + ws, actionReply) == Perform(states, k, config, actionReply)
  {
    var s := states[k];
    ShownReprOfEntry(s, ws);
    assert GetSelection(config, "Displays : ", ConnectedReprs(states), DmenuRepr(s) + ws) == Done(ShownRepr(s));
    FirstMatchAt(states, ShownRepr(s), 0, k);
  }

  /** run never turns off the last active display: a display is turned off
      only while another one is active, and run refuses (and does nothing)
      exactly when the display picked for deactivation is the only active
      one. */
  lemma RunKeepsADisplayOn(states: seq<DisplayState>, config: Config, menuReply: string, actionReply: string)
    requires config.Valid()
    ensures var r := RunSpec(states, config, menuReply, actionReply);
      && (r.Done? && r.value.Ran? && !r.value.active ==>
            states[r.value.display].active
            && exists other | 0 <= other < |states| :: other != r.value.display && states[other].active)
      && (r.Done? && r.value.KeptLast? ==>
            states[r.value.display].active && |ActiveNames(states)| == 1)
  {
    var r := RunSpec(states, config, menuReply, actionReply);
    if r.Done? {
      var sel := GetSelection(config, "Displays : ", ConnectedReprs(states), menuReply).value;
      PerformKeepsADisplayOn(states, FirstMatch(states, sel, 0).value, config, actionReply);
    }
  }

  lemma PerformKeepsADisplayOn(states: seq<DisplayState>, k: nat, config: Config, reply: string)
    requires config.Valid() && k < |states|
    ensures var r := Perform(states, k, config, reply);
      && (r.Done? && r.value.Ran? && !r.value.active ==>
            states[k].active && exists other | 0 <= other < |states| :: other != k && states[other].active)
      && (r.Done? && r.value.KeptLast? ==> states[k].active && |ActiveNames(states)| == 1)
  {
    var r := Perform(states, k, config, reply);
    if r.Done? && r.value.Ran? && !r.value.active {
      ActiveNamesSpec(states, states[k].name);
      AnotherActive(states, k);
    }
  }

  /** Picking the only active display for deactivation keeps it on. */
  lemma LastDisplayKept(states: seq<DisplayState>, config: Config, k: nat, reply: string)
    requires config.Valid() && k < |states| && states[k].connected && states[k].active
    requires forall j | 0 <= j < |states| && j != k :: !states[j].active
    ensures Perform(states, k, config, reply) == Done(KeptLast(k))
  {
    OnlyActive(states, k);
  }

  /** Picking an inactive display and then the entry of a position relative
      to active display `i` runs `xrandr --output N FLAG NAME --auto`. */
  lemma PerformActivates(states: seq<DisplayState>, config: Config, k: nat, i: nat, p: nat, ws: string)
    requires config.Valid() && k < |states| && states[k].connected && !states[k].active
    requires i < |ActiveNames(states)| && p < |PositionFlags| && Trimmed(ActiveNames(states)[i]) && AllSpace(ws)
    requires DmenuCmd(|PositionFlags| * |ActiveNames(states)|, "Where ", config.section, config.shellSplit).Ok?
    ensures var other := ActiveNames(states)[i];
      Perform(states, k, config, PositionLabel(p, other) + ws)
        == Done(Ran(k, ["xrandr", "--output", states[k].name, PositionFlags[p].1, other, "--auto"], true))
  {
    var other := ActiveNames(states)[i];
    ChosenPlacePicks(ActiveNames(states), config, i, p, ws);
    assert ["xrandr", "--output", states[k].name] + PositionArgs(p, other) + ["--auto"]
      == ["xrandr", "--output", states[k].name, PositionFlags[p].1, other, "--auto"];
  }

  // ---------------------------------------------------------------- reading the displays

  /** The display a successful init_values leaves behind, starting from a
      new display object. */
  function FromHeader(name: string, h: Header): (s: DisplayState)
    ensures s.name == name && s.resolution in s.resolutions
    ensures s.active <==> s.resolution.Some?
  {
    DisplayState(name, h.Connected(), h.Active(), h.resolution, [h.resolution])
  }

  /** A freshly read display accepts its own current resolution, and a
      display read as inactive has only None recorded, so change_resolution
      refuses every mode for it. */
  lemma CurrentResolutionAccepted(name: string, h: Header, mode: string)
    ensures h.resolution == Some(mode) ==> ResolutionCommand(FromHeader(name, h), mode).Ok?
    ensures !h.Active() ==> ResolutionCommand(FromHeader(name, h), mode).Err?
  {
  }

  /** get_displays as values: one display per name, each read from the same
      status text; the first display whose header is missing stops the script. */
  function ReadAll(names: seq<string>, lines: seq<string>): (r: Result<seq<DisplayState>>)
    ensures r.Ok? ==> |r.value| == |names|
  {
    if names == [] then Ok([])
    else
      match ReadRaw(names[0], lines)
      case Err(e) => Err(e)
      case Ok(h) =>
        match ReadAll(names[1..], lines)
        case Err(e) => Err(e)
        case Ok(rest) => Ok([FromHeader(names[0], h)] + rest)
  }

  /** When every display can be read, the k-th state is what init_values
      reads for the k-th name. */
  lemma {:induction false} ReadAllAt(names: seq<string>, lines: seq<string>, k: nat)
    requires ReadAll(names, lines).Ok? && k < |names|
    ensures ReadRaw(names[k], lines).Ok?
    ensures ReadAll(names, lines).value[k] == FromHeader(names[k], ReadRaw(names[k], lines).value)
  {
    var first := ReadRaw(names[0], lines);
    var rest := ReadAll(names[1..], lines);
    assert first.Ok? && rest.Ok? && ReadAll(names, lines).value == [FromHeader(names[0], first.value)] + rest.value;
    if k > 0 {
      ReadAllAt(names[1..], lines, k - 1);
      assert names[1..][k - 1] == names[k];
    }
  }

  /** A display whose header line sits after the first line of the status
      text is always read: the search finds that line or an earlier header. */
  lemma {:induction false} HeaderFound(name: string, lines: seq<string>, i: nat)
    requires 1 <= i < |lines| && ParseHeader(name, lines[i]).Some?
    ensures ReadRaw(name, lines).Ok?
  {
    HeaderFoundFrom(name, lines, 1, i);
  }

  lemma {:induction false} HeaderFoundFrom(name: string, lines: seq<string>, k: nat, i: nat)
    requires k <= i < |lines| && ParseHeader(name, lines[i]).Some?
    ensures FindRawHeader(name, lines, k).Some?
    decreases i - k
  {
    if ParseHeader(name, lines[k]).None? {
      HeaderFoundFrom(name, lines, k + 1, i);
    }
  }

  // ---------------------------------------------------------------- the display object

  class Display {
    const name: string
    var connected: bool
    var active: bool
    var resolution: Option<string>
    var resolutions: seq<Option<string>>
    /** The xrandr commands this display has run, oldest first. */
    var commands: seq<seq<string>>

    function State(): DisplayState
      reads this
    {
      DisplayState(name, connected, active, resolution, resolutions)
    }

    /** A display before init_values: the script's None values read as false. */
    constructor (name: string)
      ensures this.name == name && State() == DisplayState(name, false, false, None, []) && commands == []
    {
      this.name := name;
      connected, active, resolution, resolutions := false, false, None, [];
      commands := [];
    }

    /** init_values: the first header of the display in the status text sets
        the state and the resolution, which is also appended to the list of
        resolutions. With no header the script fails before changing anything. */
    method InitValues(status: string) returns (err: Option<Failure>)
      modifies this
      ensures var rd := ReadRaw(name, SplitLines(status));
        && (err.None? <==> rd.Ok?)
        && (rd.Err? ==> err == Some(rd.failure) && State() == old(State()))
        && (rd.Ok? ==> State() == old(State()).(connected := rd.value.Connected(), active := rd.value.Active(),
                                                 resolution := rd.value.resolution,
                                                 resolutions := old(resolutions) + [rd.value.resolution]))
      ensures commands == old(commands)
    {
      var found := ReadRaw(name, SplitLines(status));
      if found.Err? {
        return Some(found.failure);
      }
      var header := found.value;
      connected := header.Connected();
      active := header.Active();
      resolution := header.resolution;
      resolutions := resolutions + [resolution];
      return None;
    }

    /** select_position: the position menu of the active displays, built by
        its two loops, and the arguments of the chosen entry. */
    method SelectPosition(activeNames: seq<string>, config: Config, reply: string) returns (r: Outcome<seq<string>>)
      requires config.Valid()
      ensures r == ChosenPlace(activeNames, config, reply)
    {
      var inputs, table := PositionChoices(activeNames);
      var sel := GetSelection(config, "Where ", inputs, reply);
      match sel
      case Exit => r := Exit;
      case Fail(e) => r := Fail(e);
      case Done(choice) =>
        if choice in table {
          r := Done(table[choice]);
        } else {
          r := Fail(UnknownLabel(choice));
        }
    }

    /** activate: runs the command and marks the display active. */
    method Activate(activeNames: seq<string>, config: Config, reply: string) returns (r: Outcome<seq<string>>)
      requires config.Valid()
      modifies this
      ensures r == ActivateCommand(old(State()), activeNames, config, reply)
      ensures r.Done? ==> State() == old(State()).(active := true) && commands == old(commands) + [r.value]
      ensures !r.Done? ==> State() == old(State()) && commands == old(commands)
    {
      if active {
        return Fail(AlreadyActive(name));
      }
      var position := SelectPosition(activeNames, config, reply);
      match position
      case Exit => return Exit;
      case Fail(e) => return Fail(e);
      case Done(p) =>
        var args := ["xrandr", "--output", name] + p + ["--auto"];
        commands := commands + [args];
        active := true;
        r := Done(args);
    }

    /** deactivate: runs the command and marks the display inactive. */
    method Deactivate() returns (r: Result<seq<string>>)
      modifies this
      ensures r == DeactivateCommand(old(State()))
      ensures r.Ok? ==> State() == old(State()).(active := false) && commands == old(commands) + [r.value]
      ensures r.Err? ==> State() == old(State()) && commands == old(commands)
    {
      if !active {
        return Err(NotActive(name));
      }
      var args := ["xrandr", "--output", name, "--off"];
      commands := commands + [args];
      active := false;
      r := Ok(args);
    }

    /** change_resolution: runs the command for a recorded mode; the recorded
        resolution is left as it was. */
    method ChangeResolution(mode: string) returns (r: Result<seq<string>>)
      modifies this
      ensures r == ResolutionCommand(old(State()), mode)
      ensures State() == old(State())
      ensures commands == if r.Ok? then old(commands) + [r.value] else old(commands)
    {
      if Some(mode) !in resolutions {
        return Err(NotAvailable(mode));
      }
      var args := ["xrandr", "--output", name, "--mode", mode];
      commands := commands + [args];
      r := Ok(args);
    }
  }

  /** The displays' states, in order. */
  function States(displs: seq<Display>): (states: seq<DisplayState>)
    reads displs
    ensures |states| == |displs|
    ensures forall k | 0 <= k < |displs| :: states[k] == displs[k].State()
  {
    if displs == [] then []
    else States(displs[..|displs| - 1]) + [displs[|displs| - 1].State()]
  }

  /** Distinct display objects that have run no command yet. */
  predicate Unused(displs: seq<Display>)
    reads displs
  {
    && (forall k | 0 <= k < |displs| :: displs[k].commands == [])
    && (forall a, b | 0 <= a < b < |displs| :: displs[a] != displs[b])
  }

  lemma UnusedAppend(displs: seq<Display>, d: Display)
    requires Unused(displs) && d.commands == [] && d !in displs
    ensures Unused(displs + [d])
  {
  }

  /** `display(name)`: the constructor runs init_values on the status text. */
  method NewDisplay(name: string, status: string) returns (d: Display, err: Option<Failure>)
    ensures fresh(d) && d.name == name && d.commands == []
    ensures var rd := ReadRaw(name, SplitLines(status));
      && (err.None? <==> rd.Ok?)
      && (rd.Err? ==> err == Some(rd.failure))
      && (rd.Ok? ==> d.State() == FromHeader(name, rd.value))
  {
    d := new Display(name);
    err := d.InitValues(status);
  }

  /** get_displays: one new display per name in the status text, each read
      by its constructor; the first failure ends the script. */
  method GetDisplays(status: string) returns (r: Result<seq<Display>>)
    ensures var expected := ReadAll(DisplayNames(status), SplitLines(status));
      && (r.Ok? <==> expected.Ok?)
      && (r.Err? ==> r.failure == expected.failure)
      && (r.Ok? ==> States(r.value) == expected.value)
    ensures r.Ok? ==> (forall d | d in r.value :: fresh(d)) && Unused(r.value)
  {
    var names := DisplayNames(status);
    r := MakeDisplays(names, status);
  }

  /** `[display(name) for name in names]`. */
  method MakeDisplays(names: seq<string>, status: string) returns (r: Result<seq<Display>>)
    ensures var expected := ReadAll(names, SplitLines(status));
      && (r.Ok? <==> expected.Ok?)
      && (r.Err? ==> r.failure == expected.failure)
      && (r.Ok? ==> States(r.value) == expected.value)
    ensures r.Ok? ==> (forall d | d in r.value :: fresh(d)) && Unused(r.value)
  {
    ghost var lines := SplitLines(status);
    var displs: seq<Display> := [];
    var i := 0;
    PrependNoStates(ReadAll(names, lines));
    assert names[0..] == names;
    while i < |names|
      invariant i <= |names| && |displs| == i
      invariant forall k | 0 <= k < |displs| :: fresh(displs[k])
      invariant Unused(displs)
      invariant ReadAll(names, lines) == PrependStates(States(displs), ReadAll(names[i..], lines))
    {
      var more, err := AddDisplay(displs, names, i, status);
      if err.Some? {
        return Err(err.value);
      }
      displs := more;
      i := i + 1;
    }
    ReadAllDone(names, lines, States(displs));
    return Ok(displs);
  }

  lemma PrependNoStates(r: Result<seq<DisplayState>>)
    ensures PrependStates([], r) == r
  {
    if r.Ok? {
      assert [] + r.value == r.value;
    }
  }

  lemma ReadAllDone(names: seq<string>, lines: seq<string>, prefix: seq<DisplayState>)
    requires ReadAll(names, lines) == PrependStates(prefix, ReadAll(names[|names|..], lines))
    ensures ReadAll(names, lines) == Ok(prefix)
  {
    assert names[|names|..] == [];
    assert prefix + [] == prefix;
  }

  /** One element of the list: the display of the i-th name, appended to
      `displs`, which holds those of the names before it. */
  method AddDisplay(displs: seq<Display>, names: seq<string>, i: nat, status: string)
    returns (more: seq<Display>, err: Option<Failure>)
    requires i == |displs| < |names| && Unused(displs)
    requires ReadAll(names, SplitLines(status)) == PrependStates(States(displs), ReadAll(names[i..], SplitLines(status)))
    ensures err.Some? ==> ReadAll(names, SplitLines(status)) == Err(err.value)
    ensures err.None? ==>
      && |more| == i + 1 && more == displs + [more[i]] && fresh(more[i]) && Unused(more)
      && ReadAll(names, SplitLines(status)) == PrependStates(States(more), ReadAll(names[i + 1..], SplitLines(status)))
  {
    ghost var lines := SplitLines(status);
    ghost var before := States(displs);
    var d;
    d, err := NewDisplay(names[i], status);
    if err.Some? {
      ReadAllStepErr(names, lines, i, before);
      return displs, err;
    }
    ReadAllStepOk(names, lines, i, before);
    assert d !in displs;
    UnusedAppend(displs, d);
    more := displs + [d];
    assert States(more) == before + [d.State()];
  }

  /** The loop's invariant carries over a display that reads. */
  lemma ReadAllStepOk(names: seq<string>, lines: seq<string>, i: nat, prefix: seq<DisplayState>)
    requires i < |names| && ReadRaw(names[i], lines).Ok?
    requires ReadAll(names, lines) == PrependStates(prefix, ReadAll(names[i..], lines))
    ensures ReadAll(names, lines)
      == PrependStates(prefix + [FromHeader(names[i], ReadRaw(names[i], lines).value)], ReadAll(names[i + 1..], lines))
  {
    var s := FromHeader(names[i], ReadRaw(names[i], lines).value);
    assert names[i..][0] == names[i];
    assert names[i..][1..] == names[i + 1..];
    assert ReadAll(names[i..], lines) == PrependStates([s], ReadAll(names[i + 1..], lines));
    PrependStatesTwice(prefix, s, ReadAll(names[i + 1..], lines));
  }

  /** A display that does not read ends the loop with its failure. */
  lemma ReadAllStepErr(names: seq<string>, lines: seq<string>, i: nat, prefix: seq<DisplayState>)
    requires i < |names| && ReadRaw(names[i], lines).Err?
    requires ReadAll(names, lines) == PrependStates(prefix, ReadAll(names[i..], lines))
    ensures ReadAll(names, lines) == Err(ReadRaw(names[i], lines).failure)
  {
    assert names[i..][0] == names[i];
  }

  function PrependStates(prefix: seq<DisplayState>, r: Result<seq<DisplayState>>): Result<seq<DisplayState>>
  {
    match r
    case Ok(rest) => Ok(prefix + rest)
    case Err(e) => Err(e)
  }

  lemma PrependStatesTwice(prefix: seq<DisplayState>, s: DisplayState, rest: Result<seq<DisplayState>>)
    ensures PrependStates(prefix, PrependStates([s], rest)) == PrependStates(prefix + [s], rest)
  {
    if rest.Ok? {
      assert prefix + ([s] + rest.value) == (prefix + [s]) + rest.value;
    }
  }

  // ---------------------------------------------------------------- run on objects

  /** The option of display `k`, carried out on the object: only that
      display changes. The active list is the one run built before acting. */
  method ActOn(displs: seq<Display>, k: nat, activeNames: seq<string>, config: Config, reply: string)
    returns (r: Outcome<Effect>)
    requires config.Valid() && k < |displs|
    requires forall a, b | 0 <= a < b < |displs| :: displs[a] != displs[b]
    requires activeNames == ActiveNames(States(displs))
    modifies displs
    ensures r == Perform(old(States(displs)), k, config, reply)
    ensures r.Done? && r.value.Ran? ==>
      && States(displs) == old(States(displs))[k := old(States(displs))[k].(active := r.value.active)]
      && displs[k].commands == old(displs[k].commands) + [r.value.command]
    ensures !(r.Done? && r.value.Ran?) ==> States(displs) == old(States(displs))
    ensures forall j | 0 <= j < |displs| && !(r.Done? && r.value.Ran? && j == k) :: displs[j].commands == old(displs[j].commands)
  {
    ghost var before := States(displs);
    var d := displs[k];
    var opts := GetOptions(d.State());
    if opts.Err? {
      return Fail(opts.failure);
    }
    if opts.value[0] == "Activate" {
      var c := d.Activate(activeNames, config, reply);
      r := match c case Done(cmd) => Done(Ran(k, cmd, true)) case Exit => Exit case Fail(e) => Fail(e);
    } else if |activeNames| == 1 {
      return Done(KeptLast(k));
    } else {
      var c := d.Deactivate();
      r := match c case Ok(cmd) => Done(Ran(k, cmd, false)) case Err(e) => Fail(e);
    }
    assert forall j | 0 <= j < |displs| && j != k ::
      displs[j] != d && displs[j].State() == before[j] && displs[j].commands == old(displs[j].commands);
    StatesUpdate(displs, before, k, d.State());
  }

  /** The states of displays of which only the k-th may have changed. */
  lemma StatesUpdate(displs: seq<Display>, before: seq<DisplayState>, k: nat, s: DisplayState)
    requires |before| == |displs| && k < |displs| && displs[k].State() == s
    requires forall j | 0 <= j < |displs| && j != k :: displs[j].State() == before[j]
    ensures States(displs) == before[k := s]
  {
  }

  /** run on displays already read: the entries of the connected displays,
      the selection, the first display that accepts it, and its option. */
  method RunOn(displs: seq<Display>, config: Config, menuReply: string, actionReply: string)
    returns (r: Outcome<Effect>)
    requires config.Valid()
    requires forall a, b | 0 <= a < b < |displs| :: displs[a] != displs[b]
    modifies displs
    ensures r == RunSpec(old(States(displs)), config, menuReply, actionReply)
    ensures r.Done? && r.value.Ran? ==> var k := r.value.display;
      && States(displs) == old(States(displs))[k := old(States(displs))[k].(active := r.value.active)]
      && displs[k].commands == old(displs[k].commands) + [r.value.command]
    ensures !(r.Done? && r.value.Ran?) ==> States(displs) == old(States(displs))
    ensures forall j | 0 <= j < |displs| && !(r.Done? && r.value.Ran? && j == r.value.display) ::
      displs[j].commands == old(displs[j].commands)
  {
    var states := States(displs);
    var activeNames := ActiveNames(states);
    var reprs := ConnectedReprs(states);
    var sel := GetSelection(config, "Displays : ", reprs, menuReply);
    match sel
    case Exit => return Exit;
    case Fail(e) => return Fail(e);
    case Done(choice) =>
      var found := FirstMatch(states, choice, 0);
      if found.None? {
        return Fail(NoMatchingDisplay(choice));
      }
      r := ActOn(displs, found.value, activeNames, config, actionReply);
  }

  /** run: read the displays, then act on them. */
  method Run(status: string, config: Config, menuReply: string, actionReply: string) returns (r: Outcome<Effect>)
    requires config.Valid()
    ensures var displays := ReadAll(DisplayNames(status), SplitLines(status));
      && (displays.Err? ==> r == Fail(displays.failure))
      && (displays.Ok? ==> r == RunSpec(displays.value, config, menuReply, actionReply))
  {
    var displs := GetDisplays(status);
    if displs.Err? {
      return Fail(displs.failure);
    }
    assert forall a, b | 0 <= a < b < |displs.value| :: displs.value[a] != displs.value[b];
    assert fresh(set d | d in displs.value);
    r := RunOn(displs.value, config, menuReply, actionReply);
  }
}

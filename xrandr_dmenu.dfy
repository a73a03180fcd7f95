/** xrandr-dmenu.py: one menu entry per action on each connected display
    (activate an inactive one, deactivate or change the mode of an active
    one); the chosen entry runs one xrandr command. */
module XrandrDmenu {
  import opened Outcomes
  import opened Text
  import opened StatusText
  import opened Menu

  // ---------------------------------------------------------------- selection

  /** use_dmenu: the entries go to the selector, whose reply is passed
      through `int()` and used as an index into them (a negative one counts
      from the end, as Python's does). The reply is the integer the selector
      printed, or None when `int()` rejects it. A chosen entry that is blank
      once trailing whitespace is removed ends the script. */
  function UseDmenu(config: Config, prompt: string, inputs: seq<string>, reply: Option<int>): (r: Outcome<string>)
    requires config.Valid()
    ensures inputs == [] ==> r == Fail(EmptyChoices)
    ensures inputs != [] && DmenuCmd(|inputs|, prompt, config.section, config.shellSplit).Err? ==> r == Fail(EmptyCommand)
    ensures inputs != [] && DmenuCmd(|inputs|, prompt, config.section, config.shellSplit).Ok? ==>
      && (reply.None? ==> r == Fail(NotAnInteger))
      && (reply.Some? && (reply.value < -|inputs| || |inputs| <= reply.value) ==> r == Fail(IndexOutOfRange(reply.value)))
    ensures r.Done? ==> r.value != [] && exists k | 0 <= k < |inputs| :: r.value == RStrip(inputs[k])
    ensures r.Exit? ==> exists k | 0 <= k < |inputs| :: RStrip(inputs[k]) == []
  {
    if inputs == [] then Fail(EmptyChoices)
    else if DmenuCmd(|inputs|, prompt, config.section, config.shellSplit).Err? then Fail(EmptyCommand)
    else
      match reply
      case None => Fail(NotAnInteger)
      case Some(i) =>
        if i < -|inputs| || |inputs| <= i then Fail(IndexOutOfRange(i))
        else
          var k := if i < 0 then i + |inputs| else i;
          var sel := RStrip(inputs[k]);
          if sel == [] then Exit else Done(sel)
  }

  /** Replying with the index of an entry, counted from either end, selects
      that entry without its trailing whitespace, or ends the script when
      nothing else is left of it. */
  lemma UseDmenuPicks(config: Config, prompt: string, inputs: seq<string>, k: nat)
    requires config.Valid() && DmenuCmd(|inputs|, prompt, config.section, config.shellSplit).Ok?
    requires k < |inputs|
    ensures RStrip(inputs[k]) != [] ==> UseDmenu(config, prompt, inputs, Some(k)) == Done(RStrip(inputs[k]))
    ensures RStrip(inputs[k]) == [] ==> UseDmenu(config, prompt, inputs, Some(k)) == Exit
    ensures UseDmenu(config, prompt, inputs, Some(k - |inputs|)) == UseDmenu(config, prompt, inputs, Some(k))
  {
  }

  /** An entry without trailing whitespace comes back as it is. */
  lemma UseDmenuPicksTrimmed(config: Config, prompt: string, inputs: seq<string>, k: nat)
    requires config.Valid() && DmenuCmd(|inputs|, prompt, config.section, config.shellSplit).Ok?
    requires k < |inputs| && Trimmed(inputs[k])
    ensures UseDmenu(config, prompt, inputs, Some(k)) == Done(inputs[k])
  {
    UseDmenuPicks(config, prompt, inputs, k);
  }

  /** The same call as written in xrandr-dmenu.py's run, on `actions.keys()`:
      under Python 3 that is a `dict_keys` view, which `len` and `join`
      accept but `inputs[int(sel)]` does not, so every integer reply raises
      TypeError. The failure the call raises. */
  function UseDmenuOnKeysView(config: Config, prompt: string, inputs: seq<string>, reply: Option<int>): (e: Failure)
    requires config.Valid()
    ensures e == EmptyChoices <==> inputs == []
    ensures inputs != [] && DmenuCmd(|inputs|, prompt, config.section, config.shellSplit).Ok? ==>
      (e == KeysNotSubscriptable <==> reply.Some?)
  {
    if inputs == [] then EmptyChoices
    else if DmenuCmd(|inputs|, prompt, config.section, config.shellSplit).Err? then EmptyCommand
    else
      match reply
      case None => NotAnInteger
      case Some(_) => KeysNotSubscriptable
  }

  // ---------------------------------------------------------------- displays and actions

  /** The fields of a Display object, as a value. */
  datatype DisplayState = DisplayState(
    name: string, connected: bool, active: bool, resolution: Option<string>, resolutions: seq<string>)

  /** The bound methods get_possible_actions offers. */
  datatype ActionKind = Activate | Deactivate | ChangeResolution

  /** `"{}".format(resolution)`: a missing one prints as None. */
  function ShowResolution(r: Option<string>): string
  {
    match r
    case None => "None"
    case Some(s) => s
  }

  /** The menu entry of an action (the script spells it "Desactivate"). */
  function ActionLabel(name: string, kind: ActionKind, resolution: Option<string>): string
  {
    match kind
    case Activate => "Activate " + name
    case Deactivate => "Desactivate " + name
    case ChangeResolution => "Change resolution of " + name + " (" + ShowResolution(resolution) + ")"
  }

  /** get_possible_actions: an active display can be deactivated or given
      another mode, an inactive one can be activated; nothing else is offered. */
  function PossibleActions(s: DisplayState): (entries: seq<(string, ActionKind)>)
    ensures forall e | e in entries :: e.0 == ActionLabel(s.name, e.1, s.resolution)
    ensures forall kind: ActionKind :: (ActionLabel(s.name, kind, s.resolution), kind) in entries <==> (kind.Activate? <==> !s.active)
    ensures forall i, j | 0 <= i < j < |entries| :: entries[i].0 != entries[j].0
  {
    if s.active then
      [(ActionLabel(s.name, Deactivate, s.resolution), Deactivate),
       (ActionLabel(s.name, ChangeResolution, s.resolution), ChangeResolution)]
    else [(ActionLabel(s.name, Activate, s.resolution), Activate)]
  }

  /** An entry tells its display and its action apart from every other
      display's: the three words differ in their first letter, and a name
      holds no whitespace. */
  lemma ActionLabelInjective(n1: string, k1: ActionKind, r1: Option<string>, n2: string, k2: ActionKind, r2: Option<string>)
    requires NoSpace(n1) && NoSpace(n2)
    requires ActionLabel(n1, k1, r1) == ActionLabel(n2, k2, r2)
    ensures n1 == n2 && k1 == k2
  {
    LabelInitial(n1, k1, r1);
    LabelInitial(n2, k2, r2);
    LabelName(n1, k1, r1);
    LabelName(n2, k2, r2);
    if k1.ChangeResolution? {
      SpaceEndsWord(n1, "(" + ShowResolution(r1) + ")", n2, "(" + ShowResolution(r2) + ")");
    }
  }

  /** The first letter of an entry gives its action away. */
  lemma LabelInitial(n: string, k: ActionKind, r: Option<string>)
    ensures ActionLabel(n, k, r)[0] == (match k case Activate => 'A' case Deactivate => 'D' case ChangeResolution => 'C')
  {
  }

  /** What follows the action's words: the name, and for a change of mode
      the current mode in parentheses. */
  lemma LabelName(n: string, k: ActionKind, r: Option<string>)
    ensures k.Activate? ==> ActionLabel(n, k, r)[9..] == n
    ensures k.Deactivate? ==> ActionLabel(n, k, r)[12..] == n
    ensures k.ChangeResolution? ==> ActionLabel(n, k, r)[21..] == n + " " + ("(" + ShowResolution(r) + ")")
  {
  }

  /** The entries of a non-empty whitespace-free name end in a visible
      character, so use_dmenu hands them back unchanged. */
  lemma ActionLabelTrimmed(name: string, kind: ActionKind, r: Option<string>)
    requires name != [] && NoSpace(name)
    ensures Trimmed(ActionLabel(name, kind, r))
  {
    var l := ActionLabel(name, kind, r);
    if !kind.ChangeResolution? {
      assert l[|l| - 1] == name[|name| - 1];
    }
  }

  // ---------------------------------------------------------------- the action menu

  /** The `actions` dict of run: its keys in insertion order and what each
      key is bound to (the index of the display and the action). */
  datatype ActionMenu = ActionMenu(keys: seq<string>, table: map<string, (nat, ActionKind)>)
  {
    /** The keys are the dict's, each once. */
    predicate Listed()
    {
      && (forall i, j | 0 <= i < j < |keys| :: keys[i] != keys[j])
      && (forall i | 0 <= i < |keys| :: keys[i] in table)
      && (forall l | l in table :: l in keys)
    }
  }

  /** `actions.update(entries)` with every entry bound to display `k`: a new
      key goes to the end, an existing one keeps its place and is rebound. */
  function Update(menu: ActionMenu, entries: seq<(string, ActionKind)>, k: nat): ActionMenu
    decreases |entries|
  {
    if entries == [] then menu
    else
      var l := entries[0].0;
      var keys := if l in menu.table then menu.keys else menu.keys + [l];
      Update(ActionMenu(keys, menu.table[l := (k, entries[0].1)]), entries[1..], k)
  }

  /** run's loop over the connected displays among `states`. */
  function Actions(states: seq<DisplayState>): ActionMenu
  {
    if states == [] then ActionMenu([], map[])
    else
      var n := |states| - 1;
      var menu := Actions(states[..n]);
      if states[n].connected then Update(menu, PossibleActions(states[n]), n) else menu
  }

  lemma {:induction false} UpdateListed(menu: ActionMenu, entries: seq<(string, ActionKind)>, k: nat)
    requires menu.Listed()
    ensures Update(menu, entries, k).Listed()
    decreases |entries|
  {
    if entries != [] {
      var l := entries[0].0;
      var keys := if l in menu.table then menu.keys else menu.keys + [l];
      UpdateListed(ActionMenu(keys, menu.table[l := (k, entries[0].1)]), entries[1..], k);
    }
  }

  /** After an update, a key is bound as before or to one of the entries. */
  lemma {:induction false} UpdateSound(menu: ActionMenu, entries: seq<(string, ActionKind)>, k: nat, l: string)
    requires l in Update(menu, entries, k).table
    ensures var v := Update(menu, entries, k).table[l];
      (l in menu.table && v == menu.table[l]) || (v.0 == k && (l, v.1) in entries)
    decreases |entries|
  {
    if entries != [] {
      var e := entries[0];
      var keys := if e.0 in menu.table then menu.keys else menu.keys + [e.0];
      var next := ActionMenu(keys, menu.table[e.0 := (k, e.1)]);
      UpdateSound(next, entries[1..], k, l);
      var v := Update(menu, entries, k).table[l];
      if (l, v.1) in entries[1..] {
        assert (l, v.1) in entries;
      }
    }
  }

  /** A key no entry mentions keeps its binding. */
  lemma {:induction false} UpdateKeeps(menu: ActionMenu, entries: seq<(string, ActionKind)>, k: nat, l: string)
    requires forall e | e in entries :: e.0 != l
    ensures l in Update(menu, entries, k).table <==> l in menu.table
    ensures l in menu.table ==> Update(menu, entries, k).table[l] == menu.table[l]
    decreases |entries|
  {
    if entries != [] {
      var e := entries[0];
      var keys := if e.0 in menu.table then menu.keys else menu.keys + [e.0];
      UpdateKeeps(ActionMenu(keys, menu.table[e.0 := (k, e.1)]), entries[1..], k, l);
    }
  }

  /** Entries with distinct keys are all bound as given. */
  lemma {:induction false} UpdateSets(menu: ActionMenu, entries: seq<(string, ActionKind)>, k: nat, i: nat)
    requires i < |entries|
    requires forall a, b | 0 <= a < b < |entries| :: entries[a].0 != entries[b].0
    ensures entries[i].0 in Update(menu, entries, k).table
    ensures Update(menu, entries, k).table[entries[i].0] == (k, entries[i].1)
    decreases |entries|
  {
    var e := entries[0];
    var keys := if e.0 in menu.table then menu.keys else menu.keys + [e.0];
    var next := ActionMenu(keys, menu.table[e.0 := (k, e.1)]);
    if i == 0 {
      forall f | f in entries[1..]
        ensures f.0 != e.0
      {
        var b :| 0 <= b < |entries[1..]| && entries[1..][b] == f;
        assert entries[b + 1] == f;
      }
      UpdateKeeps(next, entries[1..], k, e.0);
    } else {
      UpdateSets(next, entries[1..], k, i - 1);
    }
  }

  /** The dict lists each key once, in insertion order. */
  lemma {:induction false} ActionsListed(states: seq<DisplayState>)
    ensures Actions(states).Listed()
  {
    if states != [] {
      var n := |states| - 1;
      ActionsListed(states[..n]);
      if states[n].connected {
        UpdateListed(Actions(states[..n]), PossibleActions(states[n]), n);
      }
    }
  }

  /** Every key is bound to an action that get_possible_actions offers for
      a connected display. */
  lemma {:induction false} ActionsSound(states: seq<DisplayState>, l: string)
    requires l in Actions(states).table
    ensures var (k, kind) := Actions(states).table[l];
      k < |states| && states[k].connected && (l, kind) in PossibleActions(states[k])
  {
    var n := |states| - 1;
    var menu := Actions(states[..n]);
    if states[n].connected {
      UpdateSound(menu, PossibleActions(states[n]), n, l);
    }
    var v := Actions(states).table[l];
    if l in menu.table && v == menu.table[l] {
      ActionsSound(states[..n], l);
      assert states[..n][v.0] == states[v.0];
    }
  }

  /** Display names are whitespace-free and distinct. */
  predicate WellNamed(states: seq<DisplayState>)
  {
    && (forall k | 0 <= k < |states| :: NoSpace(states[k].name))
    && (forall i, j | 0 <= i < j < |states| :: states[i].name != states[j].name)
  }

  /** With well-named displays, every action offered for a connected display
      is bound to that display and that action. */
  lemma {:induction false} ActionsComplete(states: seq<DisplayState>, k: nat, kind: ActionKind)
    requires WellNamed(states) && k < |states| && states[k].connected
    requires kind.Activate? <==> !states[k].active
    ensures var l := ActionLabel(states[k].name, kind, states[k].resolution);
      l in Actions(states).table && Actions(states).table[l] == (k, kind)
  {
    var n := |states| - 1;
    var pre := states[..n];
    var l := ActionLabel(states[k].name, kind, states[k].resolution);
    var entries := PossibleActions(states[n]);
    if k == n {
      var i :| 0 <= i < |entries| && entries[i] == (l, kind);
      UpdateSets(Actions(pre), entries, n, i);
    } else {
      assert pre[k] == states[k];
      ActionsComplete(pre, k, kind);
      if states[n].connected {
        forall e | e in entries
          ensures e.0 != l
        {
          if e.0 == l {
            ActionLabelInjective(states[n].name, e.1, states[n].resolution, states[k].name, kind, states[k].resolution);
          }
        }
        UpdateKeeps(Actions(pre), entries, n, l);
      }
    }
  }

  // ---------------------------------------------------------------- what an action runs

  /** `[displ for displ in displs if displ.active]`, by name. */
  function ActiveNames(states: seq<DisplayState>): (names: seq<string>)
    ensures |names| <= |states|
    ensures forall n | n in names :: exists k | 0 <= k < |states| :: states[k].active && states[k].name == n
    ensures forall k | 0 <= k < |states| && states[k].active :: states[k].name in names
  {
    if states == [] then []
    else
      var n := |states| - 1;
      var pre := ActiveNames(states[..n]);
      assert forall k | 0 <= k < n :: states[..n][k] == states[k];
      if states[n].active then pre + [states[n].name] else pre
  }

  /** select_position: the entry chosen from the position menu of the active
      displays, and the xrandr arguments it stands for. */
  function ChosenPosition(names: seq<string>, config: Config, reply: Option<int>): (r: Outcome<seq<string>>)
    requires config.Valid()
    ensures r.Done? ==> exists i, p | 0 <= i < |names| && 0 <= p < |PositionFlags| :: r.value == PositionArgs(p, names[i])
    ensures names == [] ==> r == Fail(EmptyChoices)
  {
    match UseDmenu(config, "Where ", PositionMenu(names), reply)
    case Exit => Exit
    case Fail(e) => Fail(e)
    case Done(sel) =>
      match PositionOf(names, sel)
      case Ok(args) => Done(args)
      case Err(e) => Fail(e)
  }

  /** Picking the menu entry of a position relative to an active display
      yields exactly that position and display. */
  lemma ChosenPositionPicks(names: seq<string>, config: Config, i: nat, p: nat)
    requires config.Valid() && i < |names| && p < |PositionFlags| && Trimmed(names[i])
    requires DmenuCmd(|PositionFlags| * |names|, "Where ", config.section, config.shellSplit).Ok?
    ensures ChosenPosition(names, config, Some(|PositionFlags| * i + p)) == Done(PositionArgs(p, names[i]))
  {
    PositionMenuAt(names);
    var l := PositionLabel(p, names[i]);
    assert l[|l| - 1] == names[i][|names[i]| - 1];
    UseDmenuPicksTrimmed(config, "Where ", PositionMenu(names), |PositionFlags| * i + p);
    PositionTableAt(names, i, p);
  }

  /** activate: refused on an active display; otherwise `xrandr --output N
      --auto`, followed by the chosen position when some display is active. */
  function ActivateCommand(s: DisplayState, activeNames: seq<string>, config: Config, reply: Option<int>): (r: Outcome<seq<string>>)
    requires config.Valid()
    ensures s.active ==> r == Fail(AlreadyActive(s.name))
    ensures r.Done? ==> |r.value| >= 4 && r.value[..4] == ["xrandr", "--output", s.name, "--auto"]
    ensures r.Done? && activeNames == [] ==> |r.value| == 4
    ensures r.Done? && activeNames != [] ==>
      exists i, p | 0 <= i < |activeNames| && 0 <= p < |PositionFlags| :: r.value[4..] == PositionArgs(p, activeNames[i])
  {
    if s.active then Fail(AlreadyActive(s.name))
    else
      var args := ["xrandr", "--output", s.name, "--auto"];
      if |activeNames| == 0 then Done(args)
      else
        match ChosenPosition(activeNames, config, reply)
        case Exit => Exit
        case Fail(e) => Fail(e)
        case Done(position) =>
          assert (args + position)[4..] == position;
          Done(args + position)
  }

  /** deactivate: refused on an inactive display and when it is the only
      active one; otherwise `xrandr --output N --off`. */
  function DeactivateCommand(s: DisplayState, activeCount: nat): (r: Result<seq<string>>)
    ensures r.Ok? <==> s.active && activeCount != 1
    ensures !s.active ==> r == Err(NotActive(s.name))
    ensures s.active && activeCount == 1 ==> r == Err(LastDisplay)
    ensures r.Ok? ==> r.value == ["xrandr", "--output", s.name, "--off"]
  {
    if !s.active then Err(NotActive(s.name))
    else if activeCount == 1 then Err(LastDisplay)
    else Ok(["xrandr", "--output", s.name, "--off"])
  }

  /** The prompt of change_resolution. */
  function ResolutionPrompt(s: DisplayState): (prompt: string)
    ensures |prompt| == |ShowResolution(s.resolution)| + 29
    ensures prompt[26..|prompt| - 3] == ShowResolution(s.resolution)
  {
    "new resolution (currently " + ShowResolution(s.resolution) + ") :"
  }

  /** change_resolution: `xrandr --output N --mode M` for the mode chosen from
      the display's list. */
  function ResolutionCommand(s: DisplayState, config: Config, reply: Option<int>): (r: Outcome<seq<string>>)
    requires config.Valid()
    ensures s.resolutions == [] ==> r == Fail(EmptyChoices)
    ensures r.Done? ==> |r.value| == 5 && r.value[..4] == ["xrandr", "--output", s.name, "--mode"]
    ensures r.Done? ==> exists k | 0 <= k < |s.resolutions| :: r.value[4] == RStrip(s.resolutions[k])
  {
    match UseDmenu(config, ResolutionPrompt(s), s.resolutions, reply)
    case Exit => Exit
    case Fail(e) => Fail(e)
    case Done(mode) => Done(["xrandr", "--output", s.name, "--mode", mode])
  }

  /** The modes init_values reads hold no whitespace, so the mode set is one
      of the display's own. */
  lemma ResolutionIsListed(s: DisplayState, config: Config, reply: Option<int>)
    requires config.Valid()
    requires forall k | 0 <= k < |s.resolutions| :: NoSpace(s.resolutions[k])
    ensures var r := ResolutionCommand(s, config, reply);
      r.Done? ==> r.value[4] in s.resolutions
  {
    var r := ResolutionCommand(s, config, reply);
    if r.Done? {
      var k :| 0 <= k < |s.resolutions| && r.value[4] == RStrip(s.resolutions[k]);
      var m := s.resolutions[k];
      assert m != [] ==> !IsSpace(m[|m| - 1]);
    }
  }

  /** What one run does: the index of the display acted on, the xrandr
      command it ran, and whether the display is active afterwards. */
  datatype Step = Step(display: nat, command: seq<string>, active: bool)

  /** The action bound to a menu entry, carried out on display `k`. */
  function Perform(states: seq<DisplayState>, k: nat, kind: ActionKind, config: Config, reply: Option<int>): (r: Outcome<Step>)
    requires config.Valid() && k < |states|
    ensures r.Done? ==> r.value.display == k
  {
    var s := states[k];
    match kind
    case Activate =>
      (match ActivateCommand(s, ActiveNames(states), config, reply)
       case Done(c) => Done(Step(k, c, true))
       case Exit => Exit
       case Fail(e) => Fail(e))
    case Deactivate =>
      (match DeactivateCommand(s, |ActiveNames(states)|)
       case Ok(c) => Done(Step(k, c, false))
       case Err(e) => Fail(e))
    case ChangeResolution =>
      (match ResolutionCommand(s, config, reply)
       case Done(c) => Done(Step(k, c, s.active))
       case Exit => Exit
       case Fail(e) => Fail(e))
  }

  /** What each action runs and what it leaves: activating runs `--auto` and
      leaves the display on, deactivating runs `--off` and leaves it off, and
      changing the resolution runs `--mode` and leaves it as it was. */
  lemma PerformSteps(states: seq<DisplayState>, k: nat, kind: ActionKind, config: Config, reply: Option<int>)
    requires config.Valid() && k < |states|
    ensures var r := Perform(states, k, kind, config, reply);
      r.Done? ==>
        var c := r.value.command;
        && (kind.Activate? ==> r.value.active && |c| >= 4 && c[..4] == ["xrandr", "--output", states[k].name, "--auto"])
        && (kind.Deactivate? ==> !r.value.active && c == ["xrandr", "--output", states[k].name, "--off"])
        && (kind.ChangeResolution? ==>
              r.value.active == states[k].active && |c| == 5 && c[..4] == ["xrandr", "--output", states[k].name, "--mode"])
  {
  }

  /** run: the action menu of the connected displays, the entry chosen with
      the first reply, and its action (which may prompt once more, with the
      second reply). `keyOrder` is the order in which the selector is handed
      the keys of `actions`: the interpreter's, so a parameter. With
      `ks => ks` it is `list(actions)` (insertion order, Python 3.7 and
      later); Python 2's `keys()` lists them in hash order. */
  function RunSpec(states: seq<DisplayState>, config: Config, keyOrder: seq<string> -> seq<string>,
                   menuReply: Option<int>, actionReply: Option<int>): (r: Outcome<Step>)
    requires config.Valid()
    ensures r.Done? ==> r.value.display < |states| && states[r.value.display].connected
  {
    var menu := Actions(states);
    match UseDmenu(config, "Displays : ", keyOrder(menu.keys), menuReply)
    case Exit => Exit
    case Fail(e) => Fail(e)
    case Done(sel) =>
      if sel !in menu.table then Fail(UnknownLabel(sel))
      else
        var (k, kind) := menu.table[sel];
        ActionsSound(states, sel);
        Perform(states, k, kind, config, actionReply)
  }

  /** Choosing entry `j` of the action menu, in whatever order the keys are
      listed, performs the action that entry names, on the display it names. */
  lemma RunDispatch(states: seq<DisplayState>, config: Config, keyOrder: seq<string> -> seq<string>, j: nat, actionReply: Option<int>)
    requires config.Valid() && WellNamed(states)
    requires forall k | 0 <= k < |states| :: states[k].name != []
    requires multiset(keyOrder(Actions(states).keys)) == multiset(Actions(states).keys)
    requires j < |keyOrder(Actions(states).keys)|
    requires DmenuCmd(|Actions(states).keys|, "Displays : ", config.section, config.shellSplit).Ok?
    ensures var l := keyOrder(Actions(states).keys)[j];
      l in Actions(states).table && Actions(states).table[l].0 < |states|
      && RunSpec(states, config, keyOrder, Some(j), actionReply)
         == Perform(states, Actions(states).table[l].0, Actions(states).table[l].1, config, actionReply)
  {
    var menu := Actions(states);
    var shown := keyOrder(menu.keys);
    ActionsListed(states);
    assert |shown| == |multiset(shown)| == |multiset(menu.keys)| == |menu.keys|;
    var l := shown[j];
    assert l in multiset(menu.keys);
    ActionsSound(states, l);
    var (k, kind) := menu.table[l];
    ActionLabelTrimmed(states[k].name, kind, states[k].resolution);
    UseDmenuPicksTrimmed(config, "Displays : ", shown, j);
  }

  /** xrandr-dmenu.py's run as written, under Python 3: `actions.keys()` goes
      to use_dmenu unconverted, so the run raises before any action. */
  function RunAsWritten(states: seq<DisplayState>, config: Config, menuReply: Option<int>): (r: Outcome<Step>)
    requires config.Valid()
    ensures r.Fail?
    ensures Actions(states).keys != [] && menuReply.Some?
            && DmenuCmd(|Actions(states).keys|, "Displays : ", config.section, config.shellSplit).Ok?
            ==> r == Fail(KeysNotSubscriptable)
  {
    Fail(UseDmenuOnKeysView(config, "Displays : ", Actions(states).keys, menuReply))
  }

  /** One connected, inactive display and the reply 0: as written the run
      raises TypeError; listing the keys first (`list(actions)`) activates
      the display. */
  lemma KeysViewFinding()
    ensures var states := [DisplayState("HDMI-1", true, false, None, [])];
      var config := Config(None, (c: string) => [c]);
      && RunAsWritten(states, config, Some(0)) == Fail(KeysNotSubscriptable)
      && RunSpec(states, config, ks => ks, Some(0), None) == Done(Step(0, ["xrandr", "--output", "HDMI-1", "--auto"], true))
  {
    var states := [DisplayState("HDMI-1", true, false, None, [])];
    var config := Config(None, (c: string) => [c]);
    var l := ActionLabel("HDMI-1", Activate, None);
    var empty := ActionMenu([], map[]);
    assert Actions(states[..0]) == empty;
    assert PossibleActions(states[0]) == [(l, Activate)];
    var one := ActionMenu([l], map[l := (0, Activate)]);
    assert Update(one, [], 0) == one;
    assert Update(empty, [(l, Activate)], 0) == Update(one, [], 0);
    assert Actions(states) == one;
    assert ActiveNames(states) == [];
  }

  /** No run switches off the last active display: a deactivation happens only
      while another display is active too. */
  lemma RunKeepsADisplayOn(states: seq<DisplayState>, config: Config, keyOrder: seq<string> -> seq<string>,
                           menuReply: Option<int>, actionReply: Option<int>)
    requires config.Valid()
    ensures var r := RunSpec(states, config, keyOrder, menuReply, actionReply);
      r.Done? && !r.value.active ==>
        var k := r.value.display;
        states[k].active && exists other | 0 <= other < |states| :: other != k && states[other].active
  {
    var menu := Actions(states);
    var sel := UseDmenu(config, "Displays : ", keyOrder(menu.keys), menuReply);
    if sel.Done? && sel.value in menu.table {
      var (k, kind) := menu.table[sel.value];
      ActionsSound(states, sel.value);
      assert sel.value == ActionLabel(states[k].name, kind, states[k].resolution);
      PerformOff(states, k, kind, config, actionReply);
      var r := Perform(states, k, kind, config, actionReply);
      if r.Done? && !r.value.active {
        AnotherActive(states, k);
      }
    }
  }

  lemma PerformOff(states: seq<DisplayState>, k: nat, kind: ActionKind, config: Config, reply: Option<int>)
    requires config.Valid() && k < |states|
    requires kind.Activate? <==> !states[k].active
    ensures var r := Perform(states, k, kind, config, reply);
      r.Done? ==> r.value.display == k && (!r.value.active ==> states[k].active && |ActiveNames(states)| >= 2)
  {
    var r := Perform(states, k, kind, config, reply);
    if kind.Deactivate? && r.Done? {
      assert DeactivateCommand(states[k], |ActiveNames(states)|).Ok?;
      assert states[k].name in ActiveNames(states);
    }
  }

  lemma {:induction false} AnotherActive(states: seq<DisplayState>, k: nat)
    requires k < |states| && states[k].active && |ActiveNames(states)| >= 2
    ensures exists other | 0 <= other < |states| :: other != k && states[other].active
  {
    var n := |states| - 1;
    var pre := states[..n];
    if k == n {
      assert ActiveNames(pre)[0] in ActiveNames(pre);
      var other :| 0 <= other < n && pre[other].active && pre[other].name == ActiveNames(pre)[0];
      assert states[other] == pre[other];
    } else if !states[n].active {
      assert pre[k] == states[k];
      AnotherActive(pre, k);
      var other :| 0 <= other < n && other != k && pre[other].active;
      assert states[other] == pre[other];
    }
  }

  // ---------------------------------------------------------------- reading the displays

  /** The display a successful init_values leaves behind. */
  function FromReading(name: string, rd: Reading): (s: DisplayState)
    ensures s.name == name && s.resolutions == rd.modes
    ensures s.active <==> s.resolution.Some?
    ensures s.connected <==> rd.header.state == "connected"
  {
    DisplayState(name, rd.header.Connected(), rd.header.Active(), rd.header.resolution, rd.modes)
  }

  /** get_displays as values: one display per name, read from the same
      status text; the first display that cannot be read stops the script. */
  function ReadAll(names: seq<string>, lines: seq<string>): (r: Result<seq<DisplayState>>)
    ensures r.Ok? ==> |r.value| == |names|
  {
    if names == [] then Ok([])
    else
      match ReadStripped(names[0], lines)
      case Err(e) => Err(e)
      case Ok(rd) =>
        match ReadAll(names[1..], lines)
        case Err(e) => Err(e)
        case Ok(rest) => Ok([FromReading(names[0], rd)] + rest)
  }

  /** When every display can be read, the k-th state is what init_values
      reads for the k-th name. */
  lemma {:induction false} ReadAllAt(names: seq<string>, lines: seq<string>, k: nat)
    requires ReadAll(names, lines).Ok? && k < |names|
    ensures ReadStripped(names[k], lines).Ok?
    ensures ReadAll(names, lines).value[k] == FromReading(names[k], ReadStripped(names[k], lines).value)
  {
    var first := ReadStripped(names[0], lines);
    var rest := ReadAll(names[1..], lines);
    assert first.Ok? && rest.Ok? && ReadAll(names, lines).value == [FromReading(names[0], first.value)] + rest.value;
    if k > 0 {
      ReadAllAt(names[1..], lines, k - 1);
      assert names[1..][k - 1] == names[k];
    }
  }

  /** A failure is the failure of the first display that cannot be read. */
  lemma {:induction false} ReadAllFails(names: seq<string>, lines: seq<string>)
    requires ReadAll(names, lines).Err?
    ensures exists k | 0 <= k < |names| ::
      ReadStripped(names[k], lines) == Err(ReadAll(names, lines).failure)
      && forall j | 0 <= j < k :: ReadStripped(names[j], lines).Ok?
  {
    if ReadStripped(names[0], lines).Ok? {
      ReadAllFails(names[1..], lines);
      var k :| 0 <= k < |names| - 1 &&
        ReadStripped(names[1..][k], lines) == Err(ReadAll(names[1..], lines).failure)
        && forall j | 0 <= j < k :: ReadStripped(names[1..][j], lines).Ok?;
      assert names[1..][k] == names[k + 1];
      forall j | 0 <= j < k + 1
        ensures ReadStripped(names[j], lines).Ok?
      {
        if j > 0 {
          assert names[j] == names[1..][j - 1];
        }
      }
    } else {
      assert ReadStripped(names[0], lines) == Err(ReadAll(names, lines).failure);
    }
  }

  // ---------------------------------------------------------------- the display object

  class Display {
    const name: string
    var connected: bool
    var active: bool
    var resolution: Option<string>
    var resolutions: seq<string>
    /** The xrandr commands this display has run, oldest first. */
    var commands: seq<seq<string>>

    function State(): DisplayState
      reads this
    {
      DisplayState(name, connected, active, resolution, resolutions)
    }

    /** A display before init_values: the script's None values read as false. */
    constructor (name: string)
      ensures this.name == name && State() == DisplayState(name, false, false, None, []) && commands == []
    {
      this.name := name;
      connected, active, resolution, resolutions := false, false, None, [];
      commands := [];
    }

    /** init_values on the given status text: the outer loop looks for the
        first stripped line that starts with the name, the inner one collects
        the modes listed right under it. The fields change only when the
        whole reading succeeds. */
    method InitValues(status: string) returns (err: Option<Failure>)
      modifies this
      ensures var rd := ReadStripped(name, SplitLines(status));
        && (err.None? <==> rd.Ok?)
        && (rd.Err? ==> err == Some(rd.failure) && State() == old(State()))
        && (rd.Ok? ==> State() == FromReading(name, rd.value))
      ensures commands == old(commands)
    {
      var lines := SplitLines(status);
      ghost var stripped, kinds := StripAll(lines), ModeLines(lines);
      var found := FindHeaderLine(name, lines);
      if found.None? {
        ReadFromMissing(name, stripped, kinds);
        return Some(NoHeader(name));
      }
      var i := found.value;
      var line := Strip(lines[i]);
      StripAllAt(lines, i);
      var header := ParseHeader(name, line);
      if header.None? {
        ReadFromBadHeader(name, stripped, kinds, i);
        return Some(BadHeader(line));
      }
      var modes := ScanModeBlock(lines, kinds, i + 1);
      if modes.Err? {
        ReadFromBadModes(name, stripped, kinds, i, modes.failure);
        return Some(modes.failure);
      }
      ReadFromOk(name, stripped, kinds, i, header.value, modes.value);
      connected := header.value.Connected();
      active := header.value.Active();
      resolution := header.value.resolution;
      resolutions := modes.value;
      return None;
    }

    /** select_position: the position menu of the active displays, built by
        its two loops, and the arguments of the chosen entry. */
    method SelectPosition(activeNames: seq<string>, config: Config, reply: Option<int>) returns (r: Outcome<seq<string>>)
      requires config.Valid()
      ensures r == ChosenPosition(activeNames, config, reply)
    {
      var inputs, table := PositionChoices(activeNames);
      var sel := UseDmenu(config, "Where ", inputs, reply);
      match sel
      case Exit => r := Exit;
      case Fail(e) => r := Fail(e);
      case Done(choice) =>
        if choice in table {
          r := Done(table[choice]);
        } else {
          r := Fail(UnknownLabel(choice));
        }
    }

    /** activate: runs the command and marks the display active. */
    method Activate(activeNames: seq<string>, config: Config, reply: Option<int>) returns (r: Outcome<seq<string>>)
      requires config.Valid()
      modifies this
      ensures r == ActivateCommand(old(State()), activeNames, config, reply)
      ensures r.Done? ==> State() == old(State()).(active := true) && commands == old(commands) + [r.value]
      ensures !r.Done? ==> State() == old(State()) && commands == old(commands)
    {
      if active {
        return Fail(AlreadyActive(name));
      }
      var args := ["xrandr", "--output", name, "--auto"];
      if |activeNames| != 0 {
        var position := SelectPosition(activeNames, config, reply);
        match position
        case Exit => return Exit;
        case Fail(e) => return Fail(e);
        case Done(p) => args := args + p;
      }
      commands := commands + [args];
      active := true;
      r := Done(args);
    }

    /** deactivate: runs the command and marks the display inactive. */
    method Deactivate(activeCount: nat) returns (r: Result<seq<string>>)
      modifies this
      ensures r == DeactivateCommand(old(State()), activeCount)
      ensures r.Ok? ==> State() == old(State()).(active := false) && commands == old(commands) + [r.value]
      ensures r.Err? ==> State() == old(State()) && commands == old(commands)
    {
      if !active {
        return Err(NotActive(name));
      }
      if activeCount == 1 {
        return Err(LastDisplay);
      }
      var args := ["xrandr", "--output", name, "--off"];
      commands := commands + [args];
      active := false;
      r := Ok(args);
    }

    /** change_resolution: runs the command; the recorded mode is left as it
        was. */
    method ChangeResolution(config: Config, reply: Option<int>) returns (r: Outcome<seq<string>>)
      requires config.Valid()
      modifies this
      ensures r == ResolutionCommand(old(State()), config, reply)
      ensures State() == old(State())
      ensures commands == if r.Done? then old(commands) + [r.value] else old(commands)
    {
      var sel := UseDmenu(config, ResolutionPrompt(State()), resolutions, reply);
      match sel
      case Exit => r := Exit;
      case Fail(e) => r := Fail(e);
      case Done(mode) =>
        var args := ["xrandr", "--output", name, "--mode", mode];
        commands := commands + [args];
        r := Done(args);
    }
  }

  /** init_values' outer loop: the first line that starts with the name
      once stripped (`line[0:len(name)] == name`). */
  method FindHeaderLine(name: string, lines: seq<string>) returns (found: Option<nat>)
    ensures found == FindPrefixed(name, StripAll(lines), 0)
  {
    var i := 0;
    while i < |lines|
      invariant i <= |lines|
      invariant FindPrefixed(name, StripAll(lines), 0) == FindPrefixed(name, StripAll(lines), i)
    {
      var line := Strip(lines[i]);
      StripAllAt(lines, i);
      if name <= line {
        return Some(i);
      }
      i := i + 1;
    }
    return None;
  }

  /** init_values' inner loop from line `start`: a mode per digit-led line
      until an empty or other line, or the end; a digit-led line without a
      WIDTHxHEIGHT prefix fails the pattern match. */
  method ScanModeBlock(lines: seq<string>, ghost kinds: seq<ModeLine>, start: nat) returns (r: Result<seq<string>>)
    requires start <= |lines| && kinds == ModeLines(lines)
    ensures r == ScanModes(kinds, start)
  {
    var modes := [];
    assert PrependModes(modes, ScanModes(kinds, start)) == ScanModes(kinds, start) by {
      if ScanModes(kinds, start).Ok? {
        assert [] + ScanModes(kinds, start).value == ScanModes(kinds, start).value;
      }
    }
    var j := start;
    while j < |lines|
      invariant start <= j <= |lines|
      invariant ScanModes(kinds, start) == PrependModes(modes, ScanModes(kinds, j))
    {
      var kind := ClassifyModeLine(lines[j]);
      ModeLinesAt(lines, j);
      if kind.BlockEnd? {
        break;
      }
      if kind.BadMode? {
        return Err(BadModeLine(kind.text));
      }
      PrependTwice(modes, kind.resolution, ScanModes(kinds, j + 1));
      modes := modes + [kind.resolution];
      j := j + 1;
    }
    assert modes + [] == modes;
    return Ok(modes);
  }

  lemma PrependTwice(modes: seq<string>, m: string, rest: Result<seq<string>>)
    ensures PrependModes(modes, PrependModes([m], rest)) == PrependModes(modes + [m], rest)
  {
    if rest.Ok? {
      assert modes + ([m] + rest.value) == (modes + [m]) + rest.value;
    }
  }

  /** The displays' states, in order. */
  function States(displs: seq<Display>): (states: seq<DisplayState>)
    reads displs
    ensures |states| == |displs|
    ensures forall k | 0 <= k < |displs| :: states[k] == displs[k].State()
  {
    if displs == [] then []
    else States(displs[..|displs| - 1]) + [displs[|displs| - 1].State()]
  }

  /** Distinct display objects that have run no command yet. */
  predicate Unused(displs: seq<Display>)
    reads displs
  {
    && (forall k | 0 <= k < |displs| :: displs[k].commands == [])
    && (forall a, b | 0 <= a < b < |displs| :: displs[a] != displs[b])
  }

  lemma UnusedAppend(displs: seq<Display>, d: Display)
    requires Unused(displs) && d.commands == [] && d !in displs
    ensures Unused(displs + [d])
  {
  }

  /** `Display(name)`: the constructor runs init_values on the status text. */
  method NewDisplay(name: string, status: string) returns (d: Display, err: Option<Failure>)
    ensures fresh(d) && d.name == name && d.commands == []
    ensures var rd := ReadStripped(name, SplitLines(status));
      && (err.None? <==> rd.Ok?)
      && (rd.Err? ==> err == Some(rd.failure))
      && (rd.Ok? ==> d.State() == FromReading(name, rd.value))
  {
    d := new Display(name);
    err := d.InitValues(status);
  }

  /** get_displays: one new display per name in the status text, each read
      by init_values; the first failure ends the script. */
  method GetDisplays(status: string) returns (r: Result<seq<Display>>)
    ensures var expected := ReadAll(DisplayNames(status), SplitLines(status));
      && (r.Ok? <==> expected.Ok?)
      && (r.Err? ==> r.failure == expected.failure)
      && (r.Ok? ==> States(r.value) == expected.value)
    ensures r.Ok? ==> (forall d | d in r.value :: fresh(d)) && Unused(r.value)
  {
    var names := DisplayNames(status);
    r := MakeDisplays(names, status);
  }

  /** `[Display(name) for name in names]`. */
  method MakeDisplays(names: seq<string>, status: string) returns (r: Result<seq<Display>>)
    ensures var expected := ReadAll(names, SplitLines(status));
      && (r.Ok? <==> expected.Ok?)
      && (r.Err? ==> r.failure == expected.failure)
      && (r.Ok? ==> States(r.value) == expected.value)
    ensures r.Ok? ==> (forall d | d in r.value :: fresh(d)) && Unused(r.value)
  {
    ghost var lines := SplitLines(status);
    var displs: seq<Display> := [];
    var i := 0;
    assert names[0..] == names;
    assert PrependStates([], ReadAll(names, lines)) == ReadAll(names, lines) by {
      if ReadAll(names, lines).Ok? {
        assert [] + ReadAll(names, lines).value == ReadAll(names, lines).value;
      }
    }
    while i < |names|
      invariant i <= |names| && |displs| == i
      invariant forall k | 0 <= k < |displs| :: fresh(displs[k])
      invariant Unused(displs)
      invariant ReadAll(names, lines) == PrependStates(States(displs), ReadAll(names[i..], lines))
    {
      var more, err := AddDisplay(displs, names, i, status);
      if err.Some? {
        return Err(err.value);
      }
      displs := more;
      i := i + 1;
    }
    assert names[i..] == [];
    assert States(displs) + [] == States(displs);
    return Ok(displs);
  }

  /** One element of the list: the display of the i-th name, appended to
      `displs`, which holds those of the names before it. */
  method AddDisplay(displs: seq<Display>, names: seq<string>, i: nat, status: string)
    returns (more: seq<Display>, err: Option<Failure>)
    requires i == |displs| < |names| && Unused(displs)
    requires ReadAll(names, SplitLines(status)) == PrependStates(States(displs), ReadAll(names[i..], SplitLines(status)))
    ensures err.Some? ==> ReadAll(names, SplitLines(status)) == Err(err.value)
    ensures err.None? ==>
      && |more| == i + 1 && more == displs + [more[i]] && fresh(more[i]) && Unused(more)
      && ReadAll(names, SplitLines(status)) == PrependStates(States(more), ReadAll(names[i + 1..], SplitLines(status)))
  {
    ghost var lines := SplitLines(status);
    ghost var before := States(displs);
    var d;
    d, err := NewDisplay(names[i], status);
    if err.Some? {
      ReadAllStepErr(names, lines, i, before);
      return displs, err;
    }
    ReadAllStepOk(names, lines, i, before);
    assert d !in displs;
    UnusedAppend(displs, d);
    more := displs + [d];
    assert more[..i] == displs;
    assert States(more) == before + [d.State()];
  }

  /** The loop's invariant carries over a display that reads. */
  lemma ReadAllStepOk(names: seq<string>, lines: seq<string>, i: nat, prefix: seq<DisplayState>)
    requires i < |names| && ReadStripped(names[i], lines).Ok?
    requires ReadAll(names, lines) == PrependStates(prefix, ReadAll(names[i..], lines))
    ensures ReadAll(names, lines)
      == PrependStates(prefix + [FromReading(names[i], ReadStripped(names[i], lines).value)], ReadAll(names[i + 1..], lines))
  {
    var s := FromReading(names[i], ReadStripped(names[i], lines).value);
    assert names[i..][0] == names[i];
    assert names[i..][1..] == names[i + 1..];
    assert ReadAll(names[i..], lines) == PrependStates([s], ReadAll(names[i + 1..], lines));
    PrependStatesTwice(prefix, s, ReadAll(names[i + 1..], lines));
  }

  /** A display that does not read ends the loop with its failure. */
  lemma ReadAllStepErr(names: seq<string>, lines: seq<string>, i: nat, prefix: seq<DisplayState>)
    requires i < |names| && ReadStripped(names[i], lines).Err?
    requires ReadAll(names, lines) == PrependStates(prefix, ReadAll(names[i..], lines))
    ensures ReadAll(names, lines) == Err(ReadStripped(names[i], lines).failure)
  {
    assert names[i..][0] == names[i];
  }

  function PrependStates(prefix: seq<DisplayState>, r: Result<seq<DisplayState>>): Result<seq<DisplayState>>
  {
    match r
    case Ok(rest) => Ok(prefix + rest)
    case Err(e) => Err(e)
  }

  lemma PrependStatesTwice(prefix: seq<DisplayState>, s: DisplayState, rest: Result<seq<DisplayState>>)
    ensures PrependStates(prefix, PrependStates([s], rest)) == PrependStates(prefix + [s], rest)
  {
    if rest.Ok? {
      assert prefix + ([s] + rest.value) == (prefix + [s]) + rest.value;
    }
  }

  // ---------------------------------------------------------------- run

  /** run's loop over the connected displays, filling the `actions` dict. */
  method CollectActions(displs: seq<Display>) returns (menu: ActionMenu)
    ensures menu == Actions(States(displs))
  {
    ghost var states := States(displs);
    menu := ActionMenu([], map[]);
    var i := 0;
    while i < |displs|
      invariant i <= |displs| && menu == Actions(states[..i])
    {
      assert states[..i + 1][..i] == states[..i];
      if displs[i].connected {
        menu := Update(menu, PossibleActions(displs[i].State()), i);
      }
      i := i + 1;
    }
    assert states[..i] == states;
  }

  /** The bound method of the chosen entry, called on display `k` with the
      active displays of run. */
  method CallAction(displs: seq<Display>, k: nat, kind: ActionKind, activeNames: seq<string>, config: Config, reply: Option<int>)
    returns (r: Outcome<Step>)
    requires config.Valid() && k < |displs|
    requires activeNames == ActiveNames(States(displs))
    modifies displs[k]
    ensures r == Perform(old(States(displs)), k, kind, config, reply)
    ensures r.Done? ==> r.value.display == k
    ensures displs[k].State() == if r.Done? then old(displs[k].State()).(active := r.value.active) else old(displs[k].State())
    ensures displs[k].commands == if r.Done? then old(displs[k].commands) + [r.value.command] else old(displs[k].commands)
  {
    match kind
    case Activate =>
      var c := displs[k].Activate(activeNames, config, reply);
      r := match c case Done(cmd) => Done(Step(k, cmd, true)) case Exit => Exit case Fail(e) => Fail(e);
    case Deactivate =>
      var c := displs[k].Deactivate(|activeNames|);
      r := match c case Ok(cmd) => Done(Step(k, cmd, false)) case Err(e) => Fail(e);
    case ChangeResolution =>
      var c := displs[k].ChangeResolution(config, reply);
      r := match c case Done(cmd) => Done(Step(k, cmd, displs[k].active)) case Exit => Exit case Fail(e) => Fail(e);
  }

  /** run on displays already read: the `actions` dict of the connected
      displays, the selection, and the call of the bound method. Only the
      display acted on changes, and only in its `active` field and its
      command log. */
  method RunOn(displs: seq<Display>, config: Config, keyOrder: seq<string> -> seq<string>,
               menuReply: Option<int>, actionReply: Option<int>)
    returns (r: Outcome<Step>)
    requires config.Valid()
    requires forall a, b | 0 <= a < b < |displs| :: displs[a] != displs[b]
    modifies displs
    ensures r == RunSpec(old(States(displs)), config, keyOrder, menuReply, actionReply)
    ensures r.Done? ==> var k := r.value.display;
      && States(displs) == old(States(displs))[k := old(States(displs))[k].(active := r.value.active)]
      && displs[k].commands == old(displs[k].commands) + [r.value.command]
    ensures !r.Done? ==> States(displs) == old(States(displs))
    ensures forall j | 0 <= j < |displs| && !(r.Done? && j == r.value.display) :: displs[j].commands == old(displs[j].commands)
  {
    var states := States(displs);
    var activeNames := ActiveNames(states);
    var menu := CollectActions(displs);
    var sel := UseDmenu(config, "Displays : ", keyOrder(menu.keys), menuReply);
    match sel
    case Exit => return Exit;
    case Fail(e) => return Fail(e);
    case Done(choice) =>
      if choice !in menu.table {
        return Fail(UnknownLabel(choice));
      }
      var (k, kind) := menu.table[choice];
      ActionsSound(states, choice);
      forall j | 0 <= j < |displs| && j != k
        ensures displs[j] != displs[k]
      {
        if j < k {
          assert displs[j] != displs[k];
        } else {
          assert displs[k] != displs[j];
        }
      }
      r := ActOn(displs, k, kind, activeNames, config, actionReply);
  }

  /** The chosen action on display `k`, seen from the whole list: only that
      display changes. */
  method ActOn(displs: seq<Display>, k: nat, kind: ActionKind, activeNames: seq<string>, config: Config, reply: Option<int>)
    returns (r: Outcome<Step>)
    requires config.Valid() && k < |displs|
    requires forall j | 0 <= j < |displs| && j != k :: displs[j] != displs[k]
    requires activeNames == ActiveNames(States(displs))
    modifies displs
    ensures r == Perform(old(States(displs)), k, kind, config, reply)
    ensures r.Done? ==> (r.value.display == k
      && States(displs) == old(States(displs))[k := old(States(displs))[k].(active := r.value.active)]
      && displs[k].commands == old(displs[k].commands) + [r.value.command])
    ensures !r.Done? ==> States(displs) == old(States(displs))
    ensures forall j | 0 <= j < |displs| && !(r.Done? && j == k) :: displs[j].commands == old(displs[j].commands)
  {
    ghost var before := States(displs);
    ghost var s := displs[k].State();
    assert before[k] == s;
    r := CallAction(displs, k, kind, activeNames, config, reply);
    ghost var after := if r.Done? then s.(active := r.value.active) else s;
    assert displs[k].State() == after;
    forall j | 0 <= j < |displs| && j != k
      ensures displs[j].State() == before[j] && displs[j].commands == old(displs[j].commands)
    {
    }
    StatesUpdate(displs, before, k, after);
  }

  /** The states of displays of which only the k-th may have changed. */
  lemma StatesUpdate(displs: seq<Display>, before: seq<DisplayState>, k: nat, s: DisplayState)
    requires |before| == |displs| && k < |displs| && displs[k].State() == s
    requires forall j | 0 <= j < |displs| && j != k :: displs[j].State() == before[j]
    ensures States(displs) == before[k := s]
  {
  }

  /** run: read the displays, then act on them. */
  method Run(status: string, config: Config, keyOrder: seq<string> -> seq<string>,
             menuReply: Option<int>, actionReply: Option<int>) returns (r: Outcome<Step>)
    requires config.Valid()
    ensures var displays := ReadAll(DisplayNames(status), SplitLines(status));
      && (displays.Err? ==> r == Fail(displays.failure))
      && (displays.Ok? ==> r == RunSpec(displays.value, config, keyOrder, menuReply, actionReply))
  {
    var displs := GetDisplays(status);
    if displs.Err? {
      return Fail(displs.failure);
    }
    assert forall a, b | 0 <= a < b < |displs.value| :: displs.value[a] != displs.value[b];
    assert fresh(set d | d in displs.value);
    ghost var states := States(displs.value);
    assert states == ReadAll(DisplayNames(status), SplitLines(status)).value;
    r := RunOn(displs.value, config, keyOrder, menuReply, actionReply);
    assert r == RunSpec(states, config, keyOrder, menuReply, actionReply);
  }
}

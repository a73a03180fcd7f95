# xrandr-dmenu in Dafny

Two revisions of a small Python tool that reconfigures displays with
`xrandr`, driven by `dmenu` menus:

- `xrandr-dmenu.py` reads the status text of `xrandr --query`. It builds one
  `Display` object per connector and offers one menu entry per possible
  action on each connected display: "Activate N", "Desactivate N" or
  "Change resolution of N (MODE)". The selector's reply is an index into
  that menu. The chosen bound method then runs one `xrandr` command and
  may prompt once more, either for a position next to an active display or
  for a mode.
- `xrand-dmenu.py` offers one entry per connected display (its
  `dmenu_repr`). It takes the first display whose name occurs in the reply
  and either activates it next to an active display or deactivates it. It
  refuses to switch off the last active display.

Both revisions share `dmenu_cmd`, which builds the selector's command line
from the optional `[dmenu]` section of `config.ini`.

The model is organised as follows:

| file | module | what it holds |
|---|---|---|
| `outcomes.dfy` | `Outcomes` | `Option`, `Result`, `Outcome` (done, user exit, failure), and one `Failure` per exception the scripts raise |
| `text.dfy` | `Text` | the Python string operations used: strip, `split('\n')`, `in` on strings, `str(int)`, and recognisers for `[^\s]*`, `\d+` and `\d+x\d+` |
| `status.dfy` | `StatusText` | the header pattern, the connector names `get_displays` collects, and both revisions' rules for reading one display |
| `menu.dfy` | `Menu` | `dmenu_cmd`, plus the position menu and table that `select_position` builds |
| `xrandr_dmenu.dfy` | `XrandrDmenu` | `xrandr-dmenu.py`: `Display` as a class, the action menu, `use_dmenu`, `get_displays` and `run` |
| `xrand_dmenu.dfy` | `XrandDmenu` | `xrand-dmenu.py`: `display` as a class, `dmenu_repr`, `check_repr`, `get_options`, `get_selection`, `get_displays` and `run` |

I/O becomes parameters:
- The status text that `xrandr --query` prints is a `status: string`
  parameter. Every display reads the same text.
- The selector's reply is a parameter. In `xrandr-dmenu.py` it is the
  integer the selector printed, or `None` when `int()` rejects it. In
  `xrand-dmenu.py` it is the raw text printed.
- An `xrandr` command that would be run is appended to the display's
  `commands` log.
- `sys.exit()` is the `Exit` outcome. An exception is a `Fail` outcome, or
  an `Err` result, naming the `Failure`.

Each operation with a loop or with in-place updates is a method. Its
contract ties it to a specification function, and the lemmas are proved
about those functions.

Where this model departs from a prose description of the tool, it follows
the code:
- "Change resolution" is offered for every active display, however many
  modes the display lists.
- The deactivation guard of `xrandr-dmenu.py` checks only that exactly one
  display is active. It does not check which display that is.
- Neither revision resets the resolution on deactivation.
- `xrandr-dmenu.py` does not record a new mode after a change of
  resolution.
- The exit status of `xrandr` is never inspected, so every command counts
  as run.
- `xrand-dmenu.py` asks for a position even when no display is active. The
  menu is then empty, and no reply can complete the activation
  (`XrandDmenu.NoPlaceWithoutActiveDisplay`).
- `get_selection` shows an empty list like any other. Only `use_dmenu`
  rejects it.

## Model

| member | source | states |
|---|---|---|
| Text.LStrip | xrandr-dmenu.py:102 | lstrip never makes a string longer |
| Text.LStripSound | xrandr-dmenu.py:102 | lstrip keeps a suffix that is empty or starts with a visible character, and everything it drops is whitespace |
| Text.RStrip | xrandr-dmenu.py:215-217 | rstrip never makes a string longer |
| Text.RStripSound | xrandr-dmenu.py:215-217 | rstrip keeps a prefix that is empty or ends in a visible character, and everything it drops is whitespace |
| Text.RStripTrailing | xrand-dmenu.py:213-215 | whitespace appended to a string is removed again by rstrip |
| Text.StripSound | xrandr-dmenu.py:102 | `strip()` returns the middle of the string, between two runs of whitespace only |
| Text.SplitLines | xrandr-dmenu.py:96 | `split('\n')` gives at least one piece, and no piece holds a newline |
| Text.JoinCons | xrandr-dmenu.py:96 | joining after adding a character to the first piece is the same as adding it to the joined text |
| Text.JoinSplit | xrandr-dmenu.py:96 | `"\n".join(s.split('\n')) == s` |
| Text.SplitPrefix | xrandr-dmenu.py:96 | a newline-free prefix joins the first piece of the split |
| Text.SplitJoin | xrandr-dmenu.py:210 | splitting newline-free pieces joined by newlines gives the pieces back |
| Text.SubstringAt | xrand-dmenu.py:125-130 | `needle in hay` holds exactly when the needle occurs at some offset |
| Text.SubstringOfConcat | xrand-dmenu.py:130 | a string occurs in any text that contains it, whatever surrounds it |
| Text.TokenLength | xrandr-dmenu.py:199 | the `[^\s]*` run fits in its input |
| Text.TokenLengthSound | xrandr-dmenu.py:199 | the `[^\s]*` run holds no whitespace and stops at whitespace or at the end |
| Text.TokenLengthOfWord | xrandr-dmenu.py:98 | a whitespace-free word followed by a space is exactly one `[^\s]*` run long |
| Text.DigitRun | xrandr-dmenu.py:99 | the `\d*` run fits in its input |
| Text.DigitRunSound | xrandr-dmenu.py:99 | the `\d*` run is all digits and stops at a non-digit or at the end |
| Text.ResolutionPrefixSound | xrandr-dmenu.py:99 | the recognised `(\d+x\d+)` group is a WIDTHxHEIGHT prefix of the input, and no digit follows it |
| Text.ResolutionPrefixComplete | xrandr-dmenu.py:99 | digits, `x`, digits, then anything not led by a digit, are recognised as exactly that WIDTHxHEIGHT |
| Text.ResolutionHasNoSpace | xrandr-dmenu.py:99 | a WIDTHxHEIGHT string holds no whitespace |
| Text.SpaceEndsWord | xrandr-dmenu.py:134-135 | two whitespace-free words followed by a space are equal when the whole strings are |
| Text.DigitChar | xrandr-dmenu.py:43 | one decimal digit as a character, with that digit's value |
| Text.NatToString | xrandr-dmenu.py:43 | `str(n)` is a non-empty run of digits; it starts with 0 exactly when n is 0, and is then "0" |
| Text.DecimalRoundTrip | xrandr-dmenu.py:43 | `int(str(n)) == n` |
| StatusText.HeaderRoundTrip | xrandr-dmenu.py:98 | name, space, state word, space, tail is a header; the state is that word and the resolution is the WIDTHxHEIGHT group at the start of the tail |
| StatusText.HeaderShape | xrandr-dmenu.py:98 | every header line is the name, a space, a non-empty whitespace-free state word, a space, and the rest |
| StatusText.PrimaryHeaderIsInactive | xrandr-dmenu.py:98-123 | `N connected primary ...` reads as connected with no resolution, so as inactive |
| StatusText.ParseHeader | xrandr-dmenu.py:98-105 | a line matches only when it starts with the name and a space, and then the state word is non-empty |
| StatusText.FourParts | xrandr-dmenu.py:98 | a line that starts with the name and a space, then a word and a space, is those four parts |
| StatusText.HeaderName | xrandr-dmenu.py:199-200 | a captured connector name is whitespace-free and begins its line |
| StatusText.HeaderNameRoundTrip | xrandr-dmenu.py:199-200 | a whitespace-free name followed by ` connected` or ` disconnected` is captured, whatever follows |
| StatusText.NamesIn | xrandr-dmenu.py:200 | `re.findall` captures at most one name per line, and every name is whitespace-free |
| StatusText.NamesInSpec | xrandr-dmenu.py:200 | a name is collected exactly when some line introduces it |
| StatusText.DisplayNames | xrandr-dmenu.py:197-200 | the names of get_displays are whitespace-free |
| StatusText.DisplayNamesOfHeaders | xrandr-dmenu.py:197-202 | a status text whose lines after the first introduce the given names yields exactly those names, in order |
| StatusText.NamesOfHeaderLines | xrandr-dmenu.py:200 | lines each introducing one name yield those names in order |
| StatusText.StripAll | xrandr-dmenu.py:101-102 | stripping every line keeps the number of lines |
| StatusText.StripAllAt | xrandr-dmenu.py:102 | the i-th stripped line is `lines[i].rstrip().lstrip()` |
| StatusText.FindPrefixed | xrandr-dmenu.py:101-103 | the outer loop stops at the first stripped line that starts with the name, and at none if no line does |
| StatusText.ModeLines | xrandr-dmenu.py:106-113 | one class per line of the status text |
| StatusText.ModeLinesAt | xrandr-dmenu.py:107-113 | the i-th class is that of the i-th line |
| StatusText.ClassifyModeLine | xrandr-dmenu.py:107-113 | a line ends the block exactly when, stripped, it is empty or not led by a digit; a mode is a prefix of the stripped line; a bad mode line is named by its stripped text |
| StatusText.ScanModes | xrandr-dmenu.py:106-113 | the modes collected fit in the lines after the header; a failure is a bad mode line that occurs in the block |
| StatusText.ScanModesSound | xrandr-dmenu.py:106-113 | a successful inner loop collects, in order, the WIDTHxHEIGHT of each line it passed, and stops at the end of the text or at a line that ends the block |
| StatusText.ScanModesComplete | xrandr-dmenu.py:106-111 | mode lines up to the end of the text or up to a blank or non-digit line always scan |
| StatusText.ScanModesFailsAt | xrandr-dmenu.py:110-113 | the first digit-led line without a WIDTHxHEIGHT prefix fails the scan, naming that line |
| StatusText.ModeLineSound | xrandr-dmenu.py:112-113 | a mode is the WIDTHxHEIGHT prefix of its stripped line and holds no whitespace |
| StatusText.ScannedModesAreResolutions | xrandr-dmenu.py:106-113 | every collected mode is a WIDTHxHEIGHT string without whitespace |
| StatusText.FirstHeaderSpec | xrandr-dmenu.py:101-105 | the header read is the first line that starts with the name; the display is missing exactly when no line starts with it |
| StatusText.FirstHeader | xrandr-dmenu.py:101-105 | the header comes from a stripped line that starts with the name and matches; a failure is a missing header, or a stripped line of the text that fails the pattern |
| StatusText.ReadFrom | xrandr-dmenu.py:101-113 | init_values fails only for want of a header, for a header that fails the pattern, or for a bad mode line |
| StatusText.ReadStripped | xrandr-dmenu.py:96-113 | the same failures, on the lines of the status text |
| StatusText.ReadStrippedModes | xrandr-dmenu.py:106-113 | every mode read is a WIDTHxHEIGHT string without whitespace |
| StatusText.ReadStrippedSound | xrandr-dmenu.py:101-114 | a reading comes from the first line that starts with the name once stripped, and its modes from the lines right below, one per line, up to the end of the text or a line that ends the block |
| StatusText.ReadHeaderOf | xrandr-dmenu.py:101-105 | the header of a reading is that of the first line that starts with the name once stripped, and the block scanned starts right after it |
| StatusText.ModeBlockLines | xrandr-dmenu.py:106-113 | a block that scans is read off the lines themselves, one mode per line |
| StatusText.ReadStrippedMissing | xrandr-dmenu.py:101-105 | init_values fails for want of a header exactly when no line starts with the name once stripped |
| StatusText.FindRawHeader | xrand-dmenu.py:96-97 | the search returns a line, after the first, that matches the header pattern |
| StatusText.FindRawHeaderSound | xrand-dmenu.py:96-97 | no line the search passes over matches the header pattern |
| StatusText.ReadRaw | xrand-dmenu.py:96-98 | no match is the NoHeader failure |
| StatusText.ReadRawSpec | xrand-dmenu.py:96-98 | the header read is that of a line after the first, and the search fails exactly when no line after the first matches |
| StatusText.RevisionsAgreeOnHeader | xrand-dmenu.py:96-98 | when the display's first line (not the text's first) is unpadded and matches, both revisions read the same header from it |
| StatusText.NoEarlierRawHeader | xrand-dmenu.py:96-97 | a line the raw search accepts starts with the name once stripped, so none comes before the first such line |
| StatusText.FirstStrippedHeader | xrandr-dmenu.py:101-105 | the first stripped line that starts with the name and matches is the header xrandr-dmenu.py reads |
| StatusText.FirstRawHeader | xrand-dmenu.py:96-97 | the first matching line after the text's first is the one `re.search` finds |
| StatusText.FirstRawHeaderFrom | xrand-dmenu.py:96-97 | from any start, the first matching line is the one found |
| StatusText.FirstPrefixed | xrandr-dmenu.py:101-103 | from any start, the first line that starts with the name is the one found |
| StatusText.StripKeepsHeaderPrefix | xrandr-dmenu.py:102-103 | stripping a header line keeps the name at its start |
| Menu.Lookup | xrandr-dmenu.py:45-55 | `args_dict[key]` is present exactly when some option has that key, and it is that option's value |
| Menu.Without | xrandr-dmenu.py:51-62 | deleting keys never lengthens the option list |
| Menu.WithoutMembers | xrandr-dmenu.py:51-62 | an option is left exactly when it was configured and its key was not deleted |
| Menu.Shifted | xrandr-dmenu.py:63 | shifting positions keeps their number and adds one to each |
| Menu.KeptAtSound | xrandr-dmenu.py:51-63 | the m-th option left is the option at the m-th kept position of the configured list |
| Menu.KeptAtIncreasing | xrandr-dmenu.py:51-63 | the kept positions increase, so the options left keep the configured order |
| Menu.WithoutDistinct | xrandr-dmenu.py:45-62 | with distinct configured keys, the options left have distinct keys |
| Menu.CommandWords | xrandr-dmenu.py:35-50 | the program and its arguments are the split `dmenu_command` when one is configured, and `dmenu` alone otherwise |
| Menu.ShownPrompt | xrandr-dmenu.py:52-56 | a prompt other than "Displays" is shown as given |
| Menu.ShownPromptSource | xrandr-dmenu.py:52-56 | the prompt shown is the caller's or the configured `p`, and without a `p` option it is the caller's |
| Menu.Flags | xrandr-dmenu.py:63-66 | two words per forwarded option |
| Menu.FlagsAt | xrandr-dmenu.py:63-66 | option m becomes `-KEY` at position 2m and `VALUE` at position 2m+1 |
| Menu.CountFlags | xrandr-dmenu.py:57-60 | a program whose name contains "rofi" gets `-i -dmenu -lines`; any other gets `-i -l` |
| Menu.DmenuCmd | xrandr-dmenu.py:26-68 | the command fails exactly when a configured dmenu_command splits into no words; otherwise it has at least 5 words with `-i` second and starts with the configured program; without a section it is `dmenu -i -l COUNT -p PROMPT`, six words |
| Menu.DmenuIsNotRofi | xrandr-dmenu.py:57-60 | plain dmenu gets `-i -l` |
| Menu.EmptySectionIsDefault | xrandr-dmenu.py:38-68 | an empty `[dmenu]` section gives the same command as no section |
| Menu.DmenuCmdCountAndPrompt | xrandr-dmenu.py:43-67 | after the count flag come the count (reading back as num_lines), `-p`, and the prompt; a configured `p` replaces only the prompt "Displays" |
| Menu.ConfiguredHead | xrandr-dmenu.py:52-67 | with a section, the command starts with program, count flags, count, `-p` and the prompt, which is the configured `p` only for the prompt "Displays" |
| Menu.DmenuCmdProgramArgs | xrandr-dmenu.py:48-66 | the program's own arguments sit between the prompt and the forwarded flags |
| Menu.HeadLayout | xrandr-dmenu.py:64-67 | the head of the command puts the count and the prompt right after the count flags |
| Menu.DmenuCmdForwardsOptions | xrandr-dmenu.py:45-66 | the command ends with one `-KEY VALUE` pair per option left, in order; an option is left exactly when its key is not dmenu_command, p or pinentry; no key is forwarded twice |
| Menu.DmenuCmdFlags | xrandr-dmenu.py:63-66 | the forwarded options close the command, two words each |
| Menu.PositionLabel | xrandr-dmenu.py:172 | an entry is the position word, a space and the display name |
| Menu.PositionLabelInjective | xrandr-dmenu.py:81-86 | equal entries name the same position and the same display |
| Menu.DisplayLabels | xrandr-dmenu.py:171-172 | one display contributes one entry per position, in the order of positions_cmd |
| Menu.DisplayArgs | xrandr-dmenu.py:171-174 | every command of one display is two words, the second the display's name |
| Menu.DisplayArgsAt | xrandr-dmenu.py:171-174 | each entry of one display maps to that position's flag and the display name |
| Menu.DisplayArgsKeys | xrandr-dmenu.py:171-174 | the keys of one display's commands are its entries |
| Menu.PositionMenuAt | xrandr-dmenu.py:168-172 | the menu has five entries per active display; entry 5i+p is position p next to display i |
| Menu.PositionTableAt | xrandr-dmenu.py:168-176 | the entry of position p and display i maps to exactly that flag and name, whatever the other displays |
| Menu.PositionTableKeys | xrandr-dmenu.py:169-174 | every key of `commands` is an entry of the menu |
| Menu.PositionMenu | xrandr-dmenu.py:168-172 | the menu has five entries per active display |
| Menu.PositionTable | xrandr-dmenu.py:168-174 | every command is a flag and one of the active displays' names |
| Menu.TableEntryStep | xrandr-dmenu.py:173-174 | one inner step adds the entry of one position to the table |
| Menu.PositionPrefixStep | xrandr-dmenu.py:168-174 | one outer step adds one display's entries to the menu and the table |
| Menu.PositionChoices | xrandr-dmenu.py:168-174 | select_position's two loops build exactly the menu and the table |
| Menu.PositionOf | xrandr-dmenu.py:176 | `commands[sel]` succeeds exactly for a menu entry and gives that entry's position and display; otherwise it raises KeyError |
| XrandrDmenu.UseDmenu | xrandr-dmenu.py:205-217 | an empty list fails; a reply that is not an integer fails, and so does one outside the list counted from either end; a selection is a non-empty entry stripped on the right; an exit means a blank entry was picked |
| XrandrDmenu.UseDmenuPicks | xrandr-dmenu.py:214-217 | replying with an entry's index, counted from either end, selects that entry stripped on the right, or exits when it is blank |
| XrandrDmenu.UseDmenuPicksTrimmed | xrandr-dmenu.py:214-217 | an entry that ends in a visible character is selected as it is |
| XrandrDmenu.UseDmenuOnKeysView | xrandr-dmenu.py:208-214 | handed `dict.keys()` under Python 3, use_dmenu fails on an empty view and raises TypeError exactly when the reply is an integer |
| XrandrDmenu.PossibleActions | xrandr-dmenu.py:127-138 | an active display offers deactivate and change of resolution, an inactive one activate, with distinct labels |
| XrandrDmenu.ActionLabelInjective | xrandr-dmenu.py:133-137 | equal labels name the same display and the same action |
| XrandrDmenu.LabelInitial | xrandr-dmenu.py:133-137 | a label's first letter gives its action away |
| XrandrDmenu.LabelName | xrandr-dmenu.py:133-137 | after the action's words a label holds the name (and, for a change of mode, the mode in parentheses) |
| XrandrDmenu.ActionLabelTrimmed | xrandr-dmenu.py:133-137 | the label of a non-empty whitespace-free name ends in a visible character |
| XrandrDmenu.UpdateListed | xrandr-dmenu.py:229 | `dict.update` keeps each key once, in insertion order |
| XrandrDmenu.UpdateSound | xrandr-dmenu.py:229 | after an update a key is bound as before or to one of the new entries |
| XrandrDmenu.UpdateKeeps | xrandr-dmenu.py:229 | a key no entry mentions keeps its binding |
| XrandrDmenu.UpdateSets | xrandr-dmenu.py:229 | entries with distinct keys are all bound as given |
| XrandrDmenu.ActionsListed | xrandr-dmenu.py:227-229 | the actions dict lists each key once |
| XrandrDmenu.ActionsSound | xrandr-dmenu.py:225-229 | every key is bound to an action that get_possible_actions offers for a connected display |
| XrandrDmenu.ActionsComplete | xrandr-dmenu.py:225-229 | with distinct whitespace-free names, every action of every connected display is bound to that display and action |
| XrandrDmenu.ActiveNames | xrandr-dmenu.py:226 | the active list names exactly the active displays |
| XrandrDmenu.ChosenPosition | xrandr-dmenu.py:164-176 | a chosen position is a position next to one of the active displays; with none active, use_dmenu fails |
| XrandrDmenu.ChosenPositionPicks | xrandr-dmenu.py:164-176 | replying with index 5i+p gives position p next to active display i |
| XrandrDmenu.ActivateCommand | xrandr-dmenu.py:149-162 | an active display is refused; otherwise the command is `xrandr --output N --auto`, followed by a chosen position exactly when some display is active |
| XrandrDmenu.DeactivateCommand | xrandr-dmenu.py:178-189 | the command is `xrandr --output N --off` exactly when the display is active and the active count is not 1; otherwise NotActive or LastDisplay |
| XrandrDmenu.ResolutionCommand | xrandr-dmenu.py:140-147 | no modes fails; otherwise `xrandr --output N --mode M`, where M is one of the display's modes stripped on the right |
| XrandrDmenu.ResolutionPrompt | xrandr-dmenu.py:144 | the prompt shows the current mode between its parentheses |
| XrandrDmenu.ResolutionIsListed | xrandr-dmenu.py:140-147 | when the modes hold no whitespace, the mode set is one of the display's own |
| XrandrDmenu.Perform | xrandr-dmenu.py:234 | the bound method acts on the display it is bound to |
| XrandrDmenu.PerformSteps | xrandr-dmenu.py:140-189 | activating runs `--auto` and leaves the display on, deactivating runs `--off` and leaves it off, changing the mode runs `--mode` and keeps the active flag |
| XrandrDmenu.RunSpec | xrandr-dmenu.py:219-234 | a run, with the keys listed in a given order, acts only on a connected display |
| XrandrDmenu.RunDispatch | xrandr-dmenu.py:228-234 | whatever order lists the keys, replying with index j performs the action of the j-th key listed, on its display |
| XrandrDmenu.RunAsWritten | xrandr-dmenu.py:214-231 | as written under Python 3 a run always fails, and with actions offered and an integer reply it raises TypeError |
| XrandrDmenu.KeysViewFinding | xrandr-dmenu.py:214-231 | for one connected inactive display and the reply 0, the run as written raises TypeError, while listing the keys activates the display |
| XrandrDmenu.RunKeepsADisplayOn | xrandr-dmenu.py:178-189 | a run switches a display off only while it and another display are active |
| XrandrDmenu.PerformOff | xrandr-dmenu.py:182-189 | a performed deactivation had the display active with at least two active displays |
| XrandrDmenu.AnotherActive | xrandr-dmenu.py:184-185 | an active display among at least two active names has an active companion |
| XrandrDmenu.ReadAll | xrandr-dmenu.py:202 | when every display reads, there is one state per name |
| XrandrDmenu.ReadAllAt | xrandr-dmenu.py:202 | the k-th state is what init_values reads for the k-th name |
| XrandrDmenu.ReadAllFails | xrandr-dmenu.py:202 | a failure is that of the first display that cannot be read |
| XrandrDmenu.FromReading | xrandr-dmenu.py:116-125 | a display read is active exactly when its mode is known, connected exactly when its state is "connected", and keeps the modes read |
| XrandrDmenu.Display.constructor | xrandr-dmenu.py:75-80 | a new display has the name, is neither connected nor active, and has no modes and no commands |
| XrandrDmenu.Display.InitValues | xrandr-dmenu.py:90-125 | the fields become what ReadStripped reads, and change only when the whole reading succeeds |
| XrandrDmenu.Display.SelectPosition | xrandr-dmenu.py:164-176 | the loops and the selection give exactly ChosenPosition |
| XrandrDmenu.Display.Activate | xrandr-dmenu.py:149-162 | it returns ActivateCommand; on success the display is active and has logged that command, otherwise nothing changes |
| XrandrDmenu.Display.Deactivate | xrandr-dmenu.py:178-189 | it returns DeactivateCommand; on success the display is inactive and has logged that command, otherwise nothing changes |
| XrandrDmenu.Display.ChangeResolution | xrandr-dmenu.py:140-147 | it returns ResolutionCommand, logs it on success, and leaves the fields as they were |
| XrandrDmenu.FindHeaderLine | xrandr-dmenu.py:101-103 | the outer loop stops where FindPrefixed says |
| XrandrDmenu.ScanModeBlock | xrandr-dmenu.py:106-113 | the inner loop gives exactly ScanModes |
| XrandrDmenu.PrependTwice | xrandr-dmenu.py:113 | appending one mode and then the rest is appending both |
| XrandrDmenu.States | xrandr-dmenu.py:202 | one state per display object, in order |
| XrandrDmenu.UnusedAppend | xrandr-dmenu.py:202 | adding a new, unused display keeps the list distinct and unused |
| XrandrDmenu.NewDisplay | xrandr-dmenu.py:75-88 | `Display(name)` is a new object that has read its state, or the failure of that reading |
| XrandrDmenu.GetDisplays | xrandr-dmenu.py:192-203 | the displays are new, distinct and unused, and their states are ReadAll of the names in the status text; otherwise they fail with ReadAll's failure |
| XrandrDmenu.MakeDisplays | xrandr-dmenu.py:202 | the list comprehension gives new displays whose states are ReadAll of the names |
| XrandrDmenu.AddDisplay | xrandr-dmenu.py:202 | one more element of the list keeps the loop's invariant, or ends it with ReadAll's failure |
| XrandrDmenu.ReadAllStepOk | xrandr-dmenu.py:202 | a display that reads carries the invariant to the next name |
| XrandrDmenu.ReadAllStepErr | xrandr-dmenu.py:202 | a display that does not read makes ReadAll fail with its failure |
| XrandrDmenu.PrependStatesTwice | xrandr-dmenu.py:202 | prepending a prefix and then one state is prepending both |
| XrandrDmenu.CollectActions | xrandr-dmenu.py:227-229 | the loop builds exactly the actions dict of the displays' states |
| XrandrDmenu.CallAction | xrandr-dmenu.py:234 | calling the bound method gives Perform on the states before the call, and changes only that display's active flag and log |
| XrandrDmenu.RunOn | xrandr-dmenu.py:225-234 | a run gives RunSpec on the states before it; only the display acted on changes, in its active flag and its log |
| XrandrDmenu.ActOn | xrandr-dmenu.py:234 | only display k changes, in its active flag and its log, as Perform says |
| XrandrDmenu.StatesUpdate | xrandr-dmenu.py:234 | when only display k changed, the states are the old ones with entry k replaced |
| XrandrDmenu.Run | xrandr-dmenu.py:219-234 | a run fails as reading the status text fails, or gives RunSpec on the states read |
| XrandDmenu.GetSelection | xrand-dmenu.py:206-215 | a selection is non-empty and ends in a visible character |
| XrandDmenu.GetSelectionSound | xrand-dmenu.py:206-215 | the selection is the reply up to its trailing whitespace; the script exits exactly when the reply is all whitespace |
| XrandDmenu.GetSelectionPicks | xrand-dmenu.py:213-215 | an entry printed with trailing whitespace is selected as that entry |
| XrandDmenu.DmenuRepr | xrand-dmenu.py:111-123 | the entry holds the name right after its verb, and ends in `)` exactly when a resolution is known |
| XrandDmenu.CheckRepr | xrand-dmenu.py:125-130 | a text that check_repr accepts is at least as long as the name |
| XrandDmenu.CheckReprSound | xrand-dmenu.py:125-130 | check_repr holds exactly when the name occurs at some offset of the text |
| XrandDmenu.DmenuReprVerb | xrand-dmenu.py:111-119 | an entry starts with "Desactivate " exactly when the display is active, and with "Activate " otherwise |
| XrandDmenu.ShownReprOfEntry | xrand-dmenu.py:111-130 | an entry comes back from the selector without its trailing space, and check_repr accepts it for its own display |
| XrandDmenu.CheckReprNotExact | xrand-dmenu.py:129-130 | check_repr is not exact: DP-1 accepts the entry of DP-1-1 |
| XrandDmenu.GetOptions | xrand-dmenu.py:178-186 | a disconnected display raises; otherwise there is one option, "Deactivate" exactly when active, "Activate" exactly when not |
| XrandDmenu.ActiveNames | xrand-dmenu.py:221 | the active list is no longer than the display list |
| XrandDmenu.ActiveNamesSpec | xrand-dmenu.py:221 | a name is listed exactly when an active display carries it |
| XrandDmenu.AnotherActive | xrand-dmenu.py:235 | an active display among at least two active names has an active companion |
| XrandDmenu.OnlyActive | xrand-dmenu.py:235 | the only active display gives a single active name |
| XrandDmenu.NoneActive | xrand-dmenu.py:221 | with no active display the list is empty |
| XrandDmenu.ConnectedReprs | xrand-dmenu.py:220-222 | the menu is no longer than the display list |
| XrandDmenu.ConnectedReprsSpec | xrand-dmenu.py:220-222 | the menu lists the entry of every connected display, and only those |
| XrandDmenu.FirstMatch | xrand-dmenu.py:224 | the match is a display index |
| XrandDmenu.FirstMatchSpec | xrand-dmenu.py:224 | the match accepts the selection and no earlier display does; no match means none does |
| XrandDmenu.FirstMatchAt | xrand-dmenu.py:224 | a display that accepts the selection, with none before it, is the match |
| XrandDmenu.ChosenPlacePicks | xrand-dmenu.py:154-166 | replying with the entry of position p next to display i gives that flag and name |
| XrandDmenu.ChosenPlaceSound | xrand-dmenu.py:154-166 | a chosen place is a position next to one of the active displays |
| XrandDmenu.ChosenPlace | xrand-dmenu.py:154-166 | a chosen place is two words, the second an active display's name |
| XrandDmenu.NoPlaceWithoutActiveDisplay | xrand-dmenu.py:148-166 | with no active display, no reply completes the position choice |
| XrandDmenu.ActivateCommandShape | xrand-dmenu.py:141-152 | an active display is refused; a command is `xrandr --output N FLAG OTHER --auto` with OTHER active; none exists when no display is active |
| XrandDmenu.ActivateCommand | xrand-dmenu.py:141-152 | an active display is refused; a command is six words naming the display third, an active display fifth, and ending in `--auto` |
| XrandDmenu.DeactivateCommand | xrand-dmenu.py:168-176 | a command exactly when the display is active; otherwise NotActive |
| XrandDmenu.ResolutionCommand | xrand-dmenu.py:132-139 | `xrandr --output N --mode M` exactly when M is a recorded resolution; otherwise NotAvailable |
| XrandDmenu.Perform | xrand-dmenu.py:226-238 | the picked display is the one acted on, and it is connected |
| XrandDmenu.RunSpec | xrand-dmenu.py:217-238 | a run acts only on a connected display |
| XrandDmenu.RunActsOnFirstMatch | xrand-dmenu.py:217-238 | a run acts on a connected display whose name occurs in the stripped reply, and on no display whose name occurs earlier |
| XrandDmenu.RunDispatch | xrand-dmenu.py:217-238 | replying with display k's entry performs its option, when no earlier display's name occurs in that entry |
| XrandDmenu.RunKeepsADisplayOn | xrand-dmenu.py:232-238 | a display is switched off only while another is active, and the run refuses exactly when the picked display is the only active one |
| XrandDmenu.PerformKeepsADisplayOn | xrand-dmenu.py:232-238 | the same, for the option of one display |
| XrandDmenu.LastDisplayKept | xrand-dmenu.py:234-237 | picking the only active display for deactivation keeps it on |
| XrandDmenu.PerformActivates | xrand-dmenu.py:141-166 | picking an inactive display, then position p next to active display i, runs `xrandr --output N FLAG NAME --auto` |
| XrandDmenu.CurrentResolutionAccepted | xrand-dmenu.py:108-109 | a freshly read display accepts its current resolution; one read as inactive refuses every mode |
| XrandDmenu.FromHeader | xrand-dmenu.py:88-109 | a display read records its current resolution among its resolutions, and is active exactly when that resolution is known |
| XrandDmenu.ReadAll | xrand-dmenu.py:203 | when every display reads, there is one state per name |
| XrandDmenu.ReadAllAt | xrand-dmenu.py:203 | the k-th state is what init_values reads for the k-th name |
| XrandDmenu.HeaderFound | xrand-dmenu.py:96-98 | a display with a header after the text's first line is always read |
| XrandDmenu.HeaderFoundFrom | xrand-dmenu.py:96-97 | a matching line at or after the start is found, or an earlier one is |
| XrandDmenu.Display.constructor | xrand-dmenu.py:73-78 | a new display has the name, is neither connected nor active, and has no resolutions and no commands |
| XrandDmenu.Display.InitValues | xrand-dmenu.py:88-109 | the fields become the header read, and its resolution is appended to the list; nothing changes without a header |
| XrandDmenu.Display.SelectPosition | xrand-dmenu.py:154-166 | the loops and the selection give exactly ChosenPlace |
| XrandDmenu.Display.Activate | xrand-dmenu.py:141-152 | it returns ActivateCommand; on success the display is active and has logged that command, otherwise nothing changes |
| XrandDmenu.Display.Deactivate | xrand-dmenu.py:168-176 | it returns DeactivateCommand; on success the display is inactive and has logged that command, otherwise nothing changes |
| XrandDmenu.Display.ChangeResolution | xrand-dmenu.py:132-139 | it returns ResolutionCommand, logs it on success, and leaves the fields as they were |
| XrandDmenu.States | xrand-dmenu.py:203 | one state per display object, in order |
| XrandDmenu.UnusedAppend | xrand-dmenu.py:203 | adding a new, unused display keeps the list distinct and unused |
| XrandDmenu.NewDisplay | xrand-dmenu.py:73-86 | `display(name)` is a new object that has read its header, or the failure of that reading |
| XrandDmenu.GetDisplays | xrand-dmenu.py:194-204 | the displays are new, distinct and unused, and their states are ReadAll of the names in the status text; otherwise they fail with ReadAll's failure |
| XrandDmenu.MakeDisplays | xrand-dmenu.py:203 | the list comprehension gives new displays whose states are ReadAll of the names |
| XrandDmenu.AddDisplay | xrand-dmenu.py:203 | one more element of the list keeps the loop's invariant, or ends it with ReadAll's failure |
| XrandDmenu.ReadAllStepOk | xrand-dmenu.py:203 | a display that reads carries the invariant to the next name |
| XrandDmenu.ReadAllStepErr | xrand-dmenu.py:203 | a display that does not read makes ReadAll fail with its failure |
| XrandDmenu.PrependStatesTwice | xrand-dmenu.py:203 | prepending a prefix and then one state is prepending both |
| XrandDmenu.ActOn | xrand-dmenu.py:226-238 | it gives Perform on the states before the call; only display k changes, and only when a command ran, in its active flag and its log |
| XrandDmenu.StatesUpdate | xrand-dmenu.py:232-238 | when only display k changed, the states are the old ones with entry k replaced |
| XrandDmenu.RunOn | xrand-dmenu.py:219-238 | a run gives RunSpec on the states before it; only the display acted on changes, and only when a command ran |
| XrandDmenu.Run | xrand-dmenu.py:217-238 | a run fails as reading the status text fails, or gives RunSpec on the states read |

## Left out

- Running processes: `Popen` for `xrandr` and `dmenu`, and the byte
  decoding with the locale's encoding. The status text and the selector's
  replies are parameters, and commands go to a per-display log. No command
  can fail.
- `LC_ALL=C` in the environment of the status query, since no process is run.
- Reading `~/.config/xrandr-dmenu/config.ini`. The `[dmenu]` section is a
  parameter, given as its options in file order, and configparser's
  refusal of duplicate keys is the `DistinctKeys` precondition.
- `shlex.split` is a function parameter of `Menu.DmenuCmd`, and the model
  proves nothing about how it splits.
- Whitespace and digits are ASCII, plus the separators U+001C to U+001F.
  Python's Unicode whitespace and Unicode digits are not modelled.
- Display names are matched literally. A regex metacharacter in a name,
  which the scripts format into their patterns unescaped, is not modelled.
- `print(sel)` in `run` of `xrandr-dmenu.py`, and the message printed when
  `xrand-dmenu.py` refuses to switch off the last display (that case is the
  `KeptLast` result).
- The exception messages are not modelled. Each exception is a `Failure`
  constructor, so the odd "already active" message of `deactivate` is not
  kept.
- `execute_option` of `xrand-dmenu.py` is never called by `run`.
- The second prompt in `run` of `xrand-dmenu.py`, taken when `get_options`
  returns other than one option, can never happen: `XrandDmenu.GetOptions`
  always returns exactly one option.
- Every `Display` re-runs `xrandr --query` in `init_values`. The model reads
  one shared status text, as if the output did not change between queries.
- The initial `None` of `connected` and `active` is modelled as `false`.
  Only a reading that succeeds is ever observed.
- `int()` on the selector's reply is abstracted to `Option<int>`: the
  integer read, or `None` when `int()` raises.
- Python dicts are modelled as insertion-ordered maps, which is Python 3.7+
  behaviour. Only the order in which `run` hands the keys of `actions` to
  the selector is left open (next line).
- XrandrDmenu.RunSpec: the order in which the keys of `actions` are listed
  is the parameter `keyOrder`. Python 2's hash order is not computed, and
  the TypeError that Python 3 raises on `actions.keys()` is recorded under
  Findings (`XrandrDmenu.RunAsWritten`).

## Findings

| source | as written | input that shows it | evidently intended | confidence | as-written member | corrected member |
|---|---|---|---|---|---|---|
| xrandr-dmenu.py:231 | `use_dmenu("Displays : ", actions.keys())` hands a keys view to use_dmenu, which indexes it with `inputs[int(sel)]` (xrandr-dmenu.py:214); under Python 3 a keys view cannot be indexed, so every run that reaches that line raises TypeError | one connected, inactive display `HDMI-1` and the reply `0` | index a list of the keys, `list(actions)`, so that the reply picks the entry shown at that position | not executed | XrandrDmenu.RunAsWritten (exhibited by XrandrDmenu.KeysViewFinding) | XrandrDmenu.RunSpec (proved by XrandrDmenu.RunDispatch) |


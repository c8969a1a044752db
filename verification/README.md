# display-controller in Dafny

`display-controller.py` switches the displays of a notebook between four
layouts (clone, internal only, internal plus external, external only) by
running `xrandr`. This project models the deterministic core of that script
and proves properties of it:

- **Command builder** (`CommandBuilder`, `DisplayController.configure`): the
  `xrandr --output <name> ...` command line built for an ordered display list,
  a `DisplayMode`, the "extend all" flag and a direction. The EXTERNAL_ONLY
  branch is modelled as written: the first display falls through the
  `if idx == 1` test. Python's `displays[-1]` is spelled out with `PyIndex`.
- **Status scanner** (`StatusScanner`, `DisplayParser.parse`): the fold over
  the lines of `xrandr --props` output. It produces one `Display` per
  connected line and attaches the reassembled EDID block to the latest record.
- **Tree extraction** (`StatusTree`, `parse_display` / `parse_offset`): the
  conversion of the parse tree of one status line into a `Display`, over a
  datatype with the shape of the Lark trees the grammar produces. The
  grammar engine is a parameter `parser: string -> Option<Node>`; `None`
  stands for Lark raising on a line.
- **EDID matcher** (`Matcher`, the stored/live choice in `main` and
  `get_edids`): the subset test on EDIDs, and renaming of the stored
  displays after the live ones.
- **Rotation** (`Rotation`, `rotate` and the setup loop's `rotate(l, 1)`).
- **Python library behaviour** the core relies on (`Strings`): `in`, `index`,
  `startswith`, `strip()` with Python's default whitespace set, `split`,
  `''.join`.

Exceptions the Python code would raise become `Result`/`Option` values: a
grammar failure, or a tree `parse_display` cannot read, aborts the scan with
a `ParseError`.

Two behaviours of the code are worth naming, because a reader might expect
otherwise:

- Stored displays whose monitor is no longer connected stay in the order that
  is applied, under their stored names (display-controller.py:379-384).
  `Matcher.DisconnectedStoredDisplayKept` states this.
- EDID collection stops at the first line whose indentation *equals* the
  column where "EDID" was found (display-controller.py:182). A line starting
  with a space counts as being at that indentation.

## Model

| member | source | states |
|---|---|---|
| `CommandBuilder.PyIndex` | display-controller.py:279 | a negative list index counts from the end, so index 0's `displays[idx - 1]` is the last display |
| `CommandBuilder.CloneArgs` | display-controller.py:263-267 | the CLONE test gives options only in CLONE mode; there every display is switched on, only display 0 is primary, and a mirrored display copies the one before it |
| `CommandBuilder.ChainArgs` | display-controller.py:268-290 | the if/elif chain gives options in every mode but CLONE; the primary display is display 0, except in EXTERNAL_ONLY display 1; positional options use the direction and name an earlier display, except EXTERNAL_ONLY display 0 |
| `CommandBuilder.Plan` | display-controller.py:261-290 | one option list per display, each the options the loop body assigns to that index |
| `CommandBuilder.Command` | display-controller.py:259-290 | the command is `xrandr` alone for an empty list and otherwise starts with `xrandr --output <first display>` |
| `CommandBuilder.CommandPrefix` | display-controller.py:259-262 | for a non-empty list the command text starts with the group of the first display |
| `CommandBuilder.GroupArgs` | display-controller.py:261-290 | every positional option of a group names a display of the list and uses the requested direction |
| `CommandBuilder.PlanWellFormed` | display-controller.py:261-290 | across all displays, every option names a display of the list, so no `displays[...]` lookup fails, and every positional option uses the requested direction |
| `CommandBuilder.ClonePolicy` | display-controller.py:263-267 | CLONE: display 0 gets `--primary --auto`, display i>0 gets `--auto --same-as` display i-1 |
| `CommandBuilder.InternalOnlyPolicy` | display-controller.py:268-272 | INTERNAL_ONLY: display 0 gets `--primary --auto`, every other display `--off` |
| `CommandBuilder.InternalExtendPolicy` | display-controller.py:282-290 | INTERNAL_EXTEND: display 0 is primary; display 1 is always placed next to display 0; display i≥2 is placed next to i-1 with "extend all", else switched off |
| `CommandBuilder.ExternalOnlyPolicy` | display-controller.py:273-281 | EXTERNAL_ONLY: display 1 is primary; display i≥2 is placed next to i-1 or switched off; display 0 gets `--off` and then a second `--off`, or with "extend all" `--auto` next to the last display |
| `CommandBuilder.ReferencesPointBackward` | display-controller.py:261-290 | every positional option names an earlier display, except EXTERNAL_ONLY display 0 with "extend all", which names the last one |
| `CommandBuilder.AppendCloneOptions` | display-controller.py:263-267 | the CLONE test appends the text of `--primary --auto` for display 0, of `--auto --same-as` display i-1 for i>0, and nothing in other modes |
| `CommandBuilder.AppendInternalOnly` | display-controller.py:268-272 | the text the INTERNAL_ONLY branch appends spells `--primary --auto` for display 0 and `--off` otherwise |
| `CommandBuilder.AppendExternalOnlyTail` | display-controller.py:276-281 | the `if idx == 1` / `elif extend_all` / `else` chain appends the text of its options, with a wrapped-around target for index 0 |
| `CommandBuilder.AppendExternalOnly` | display-controller.py:273-281 | the EXTERNAL_ONLY branch appends the text of `--off` for index 0 followed by the text of the index-1 chain, which runs for every index |
| `CommandBuilder.AppendInternalExtend` | display-controller.py:282-290 | the INTERNAL_EXTEND branch appends the text of that mode's options for the display |
| `CommandBuilder.BuildGroup` | display-controller.py:262-290 | one loop iteration yields ` --output <name>` followed by the text of the options the mode assigns to that index |
| `CommandBuilder.Configure` | display-controller.py:259-290 | the command is `xrandr` followed by one group per display, in list order |
| `CommandBuilder.CloneText` | display-controller.py:262-267 | CLONE as text: ` --output <first> --primary --auto`, and ` --output <name> --auto --same-as <previous name>` for each later display |
| `CommandBuilder.InternalOnlyText` | display-controller.py:262-272 | INTERNAL_ONLY as text: ` --output <first> --primary --auto`, and ` --output <name> --off` for each later display |
| `CommandBuilder.InternalExtendText` | display-controller.py:282-290 | INTERNAL_EXTEND as text: the first display ` --primary --auto`; the second, and with "extend all" each later one, ` --auto --<direction>-of <previous name>`; otherwise ` --off` |
| `CommandBuilder.ExternalOnlyText` | display-controller.py:276-281 | EXTERNAL_ONLY as text for displays after the first: the second ` --primary --auto`; later ones ` --auto --<direction>-of <previous name>` with "extend all", otherwise ` --off` |
| `CommandBuilder.CommandNamesEveryDisplay` | display-controller.py:259-262 | when names and direction hold no spaces, splitting the command at spaces gives `xrandr` and the group words, and the words after the `--output` words are exactly the display names in list order: one group per display |
| `CommandBuilder.ExternalOnlyFirstDisplayAsWritten` | display-controller.py:273-281 | as written, EXTERNAL_ONLY display 0 is given two power settings, for every non-empty list: `--off --off`, or `--off --auto` next to the last display, which is display 0 itself when it is the only one |
| `CommandBuilder.ExternalOnlyFirstDisplayText` | display-controller.py:273-281 | for every non-empty list the EXTERNAL_ONLY text of display 0 is ` --output <first> --off --off`, or with "extend all" ` --output <first> --off --auto --<dir>-of <last>`, where `<last>` is `<first>` for a one-display list |
| `CommandBuilder.IntendedGroupsWellFormed` | display-controller.py:273-281 | with the index-1 test read as `elif`, every group sets the power of its display exactly once and every positional option names an earlier display |
| `CommandBuilder.IntendedDiffersOnlyAtExternalFirst` | display-controller.py:263-290 | the corrected options equal the as-written ones everywhere except EXTERNAL_ONLY display 0 |
| `Displays.NewDisplay` | display-controller.py:63-71 | `Display.__init__`: the fields are the arguments, and a missing EDID becomes the empty string |
| `Displays.Edids` | display-controller.py:336-337 | `get_edids`: one EDID per display, in list order |
| `StatusTree.FilterTree` | display-controller.py:194-195 | the result holds only sub-trees with the requested label, taken from the input; it is empty exactly when no element has that label |
| `StatusTree.FilterTreeSelectsMatches` | display-controller.py:194-195 | `filter` keeps exactly the elements that are trees with the requested label, each once, in input order: the result is the input at an increasing list of positions that holds every matching position and no other |
| `StatusTree.FilterTreeHead` | display-controller.py:194-198 | when some element matches, the filtered list starts with the first matching element |
| `StatusTree.FilterTreeSingle` | display-controller.py:197-203 | a result has the requested label and sits at a position before which no element matches (the first match); None exactly when no element matches |
| `StatusTree.ParseOffset` | display-controller.py:225-229 | an offset tree with a direction token and a tree holding a value token gives that direction and that value; a tree of any other shape, where Python would raise, gives None |
| `StatusTree.ParseGeometry` | display-controller.py:210-216 | a geometry is read only from a `resolution_offset` tree with two `pixels` sub-trees and a `screen_offset` sub-tree of two offsets: the resolution is the first pixel value, `x`, the second, and the offsets are those two offsets parsed |
| `StatusTree.ParseDisplay` | display-controller.py:206-223 | a parsed record has an empty EDID; resolution and both offsets are all present or all absent, present exactly when the tree has a `resolution_offset` sub-tree |
| `StatusTree.OffsetRoundTrip` | display-controller.py:225-229 | `parse_offset` recovers direction and value from every offset tree of the grammar |
| `StatusTree.GeometryRoundTrip` | display-controller.py:209-216 | from a `resolution_offset` tree the resolution `W + "x" + H` and both offsets come back |
| `StatusTree.ParseDisplayRoundTrip` | display-controller.py:206-223 | on every tree of the grammar's `start` rule `parse_display` recovers name, resolution and offsets; a valid line yields a non-empty name |
| `StatusScanner.Record` | display-controller.py:158-160 | the record of a connected line has an empty EDID and consistent geometry; a failure names the line |
| `StatusScanner.EndsEdidBlockIff` | display-controller.py:171-182 | a line closes the EDID block exactly when it starts with a space or has exactly the reference number of leading tabs |
| `StatusScanner.EdidColumn` | display-controller.py:168 | `line.index("EDID")`: the first column where "EDID" occurs |
| `StatusScanner.Step` | display-controller.py:150-189 | a disconnected line only clears `last_connected`; a connected line appends exactly one record or aborts; other lines add no record; collection starts only after a connected line on a line mentioning EDID; only the last record's EDID can change |
| `StatusScanner.Scan` | display-controller.py:148-191 | `parse` over a list of lines yields at most one record per line, and a failure carries a connected line of the input |
| `StatusScanner.ParseStatus` | display-controller.py:141-191 | `parse` over the whole output: at most one record per line, and a failure names a single connected line |
| `StatusScanner.ScanFrom` | display-controller.py:149-189 | the loop keeps the scanner state well formed and never removes records |
| `StatusScanner.StepAgreesWithRecord` | display-controller.py:150-163 | one step fails exactly when its line is a connected line whose record fails, with that error |
| `StatusScanner.RecordsCount` | display-controller.py:149-163 | the number of records is the number of connected lines |
| `StatusScanner.ScanFromRecords` | display-controller.py:149-189 | the loop from any well-formed state appends, up to EDIDs, exactly the records of the connected lines, and fails exactly when the reference fails, with its error |
| `StatusScanner.ScanMatchesRecords` | display-controller.py:142-191 | `parse` yields one record per connected line, in input order, equal up to EDID to `parse_display`'s record, and fails with the first failing line's error |
| `StatusScanner.StepContinuation` | display-controller.py:170-189 | inside an EDID block a continuation line only appends its stripped text to the buffer |
| `StatusScanner.CollectContinuations` | display-controller.py:170-189 | a run of continuation lines appends their stripped texts, in order |
| `StatusScanner.EdidReassembly` | display-controller.py:165-189 | header, k continuation lines and a closing line set the last record's EDID to the concatenation of the k stripped lines, excluding the closing line, and change no other record |
| `StatusScanner.EdidUnterminated` | display-controller.py:165-191 | when the output ends inside an EDID block no record changes: the EDID stays as it was |
| `Strings.IndexOf` | display-controller.py:168 | Python's `str.index`: the first occurrence, or None when there is none |
| `Strings.DisconnectedContainsConnected` | display-controller.py:150-153 | every line containing "disconnected" contains "connected", which is why the disconnected test comes first |
| `Strings.LeadingTabs` | display-controller.py:176-180 | the count of leading tab characters, stopping at the first non-tab |
| `Strings.Strip` | display-controller.py:189 | `str.strip()`: the result is a slice of the input with only whitespace before and after it, starts and ends with non-whitespace, and is empty exactly for all-whitespace input |
| `Strings.StripUnique` | display-controller.py:189 | any slice with only whitespace around it and non-whitespace at both ends is the result of `strip()`, so the contract above pins it down |
| `Strings.Contains` | display-controller.py:150-153 | Python's `pat in s`: true exactly when `pat` occurs at some position of `s` |
| `Strings.StartsWith` | display-controller.py:173 | `str.startswith`: true exactly when the text is the prefix followed by something |
| `Strings.Concat` | display-controller.py:185 | `''.join`: empty exactly when every part is empty, and a single part is returned as is |
| `Strings.ConcatAppend` | display-controller.py:185-189 | joining the parts with one more appended is the earlier join followed by that part |
| `Strings.Split` | display-controller.py:142 | `str.split("\n")`: never empty, and no piece holds the separator |
| `Strings.JoinSplit` | display-controller.py:142 | joining the pieces of a split gives the text back |
| `Rotation.SliceBound` | display-controller.py:333 | Python's slice bound: a bound inside the list is kept, a negative one counts from the end, one below `-len` becomes 0 and one above `len` becomes `len` |
| `Rotation.Rotate` | display-controller.py:332-333 | `l[-n:] + l[:-n]`: for `0 <= n <= len` the last `n` elements go to the front; for `-len <= n <= 0` the first `-n` elements go to the back; for `|n| >= len` the list comes back unchanged |
| `Rotation.RotatePermutes` | display-controller.py:332-333 | `rotate(l, n)` is a permutation of `l` for every `n` |
| `Rotation.RotateOne` | display-controller.py:332-333 | `rotate(l, 1)` moves the last element to the front; the empty list stays empty |
| `Rotation.RotateIndex` | display-controller.py:332-333 | for `0 <= n <= len(l)` the result is the last `n` elements followed by the others, each in original order |
| `Rotation.RotationsPermute` | display-controller.py:348-363 | after any number of rejected orders the wizard proposes the same displays |
| `Rotation.RotationsAreRotate` | display-controller.py:363 | `k` rotations by one equal one rotation by `k`, for `k <= len(l)` |
| `Rotation.RotationsCycle` | display-controller.py:348-363 | after `len(l)` rejections the wizard is back at the starting order |
| `Rotation.RotationsPeriodic` | display-controller.py:348-363 | the proposals repeat with period `len(l)` |
| `Rotation.EveryDisplayProposedFirst` | display-controller.py:348-363 | within `len(l)` rejections every display is proposed as the first (primary) one |
| `Rotation.RotationsDistinct` | display-controller.py:348-363 | with distinct displays the first `len(l)` proposals are pairwise different |
| `Matcher.FirstWithEdid` | display-controller.py:384 | the position of the first live display with the EDID, or None exactly when there is none |
| `Matcher.EdidSet` | display-controller.py:374-376 | `set(get_edids(...))`: exactly the EDIDs occurring in the list |
| `Matcher.FirstNameWithEdid` | display-controller.py:384 | the name of the first live display with the EDID, or None exactly when no live display has it |
| `Matcher.Rename` | display-controller.py:384 | only the name changes: it becomes the name of the first live display with the same EDID, or stays when there is none |
| `Matcher.UsesStored` | display-controller.py:370-377 | the stored list is used exactly when there is one and every live EDID occurs in it |
| `Matcher.RenameFromScan` | display-controller.py:383-384 | the loop renames each stored display as `Rename` does; nothing else changes, none is added, dropped or reordered, and when the stored list is chosen the result is the list `SelectDisplays` returns |
| `Matcher.SelectDisplays` | display-controller.py:370-384 | without a stored list, or when a live EDID is missing from it, the live list is used unchanged; otherwise the stored list, same length and order, renamed from the live scan |
| `Matcher.SelectedCoversCurrent` | display-controller.py:370-384 | every live EDID occurs in the selected list, whichever list is chosen |
| `Matcher.DisconnectedStoredDisplayKept` | display-controller.py:379-384 | a stored display whose monitor is not connected is kept, at its position, under its stored name |
| `Matcher.ConnectedStoredDisplayRenamed` | display-controller.py:383-384 | a stored display whose monitor is connected takes the name of the first live display with its EDID |

## Left out

- Running commands: `ProcessUtils.run` and `ProcessUtils.print` (display-controller.py:292-329) start a shell, decode bytes and wrap text. These are I/O. `Configure` stops at the finished command string.
- The configuration file: `JsonUtils` and the `from_json` class methods (display-controller.py:57-107) do file access and JSON (de)serialisation. The stored list is a parameter `Option<seq<Display>>` of `Matcher.SelectDisplays`, and `None` means "no file".
- The Lark grammar engine (display-controller.py:113-138, :158) is a third-party LALR parser. It is a parameter of the scanner. Only the shape of its trees is modelled (`StatusTree.ToTree`), with anonymous string terminals dropped as Lark does.
- Truthiness of a Lark `Tree` at display-controller.py:210: a sub-tree found by `__filter_tree_single` is taken as true and a missing one (`None`) as false. Lark's own rules for the truth value of a tree object are not modelled.
- `docopt` dispatch, `--help`/`--version` and the choice of mode and direction from the arguments (display-controller.py:341, :386-397) are thin glue. Mode, "extend all" and direction are parameters of `Configure`.
- The interactive `input()` loop of the setup wizard (display-controller.py:348-361) is left out. Only its `rotate(display_list, 1)` step is modelled, as the `Rotations` sequence of proposals.
- `DisplayController.list` (display-controller.py:234-243) only formats and prints.
- `logging.basicConfig` (display-controller.py:42) is global configuration.
- `Displays.Edids`: the `isinstance(display, Dict)` branch of `get_edids` (display-controller.py:337) is left out, because the model's display lists are always `Display` records.
- `CommandBuilder.ArgText`: a target outside the display list would be an `IndexError` in Python. `TargetName` returns the empty string there instead. Every plan the model builds has targets within the list (`CommandBuilder.GroupArgs` ensures it), so this fallback is never taken.
- Mutation: `parse` and the renaming loop mutate records in place. The model rebuilds them as values, and `Matcher.RenameFromScan` returns a new list.

## Findings

| source | as written | input that shows it | evidently intended | confidence | as-written member | corrected member |
|---|---|---|---|---|---|---|
| display-controller.py:274-281 | in EXTERNAL_ONLY the test `if idx == 1` is a plain `if`, so index 0 also runs the `elif extend_all` / `else` arms after its `--off` | EXTERNAL_ONLY, extend_all, displays `[A, B]`, direction "right": the group of `A` is ` --output A --off --auto --right-of B`, switching the internal display off and on again, next to the last display; with `[A]` alone it is ` --output A --off --auto --right-of A`, a display placed next to itself | `elif idx == 1`: index 0 only gets ` --off` | not executed | `CommandBuilder.ExternalOnlyFirstDisplayAsWritten` | `CommandBuilder.IntendedGroupsWellFormed` |

# Process tree and Pomodoro timer, modelled in Dafny

This project models two small Python tools and proves properties of the models.

**The process-tree script** (`py_tools/sys_tools/process_tree_python3.py`) works in three steps:

- It reads the output of `ps axo ppid,pid,comm` and skips the header line.
- It splits each further line into parent pid, pid and command. Both numbers go through `int()`.
- It fills a `defaultdict` from pid to `{command, children, parent_pid}` and prints the hierarchy from pid 1. `print_hierarchy` recurses in pre-order and draws a connector prefix before each `name(pid)`. The prefix is built from two regex substitutions and a dash replacement.

The model follows the same structure:

- `PyText`: the Python string and integer primitives the script relies on. These are `str.isspace`, `rstrip`, `split(None, maxsplit)` in CPython's whitespace-splitting algorithm, `int()` on ASCII digits (with sign, surrounding whitespace and `_` digit separators) and `str(int)`.
- `ProcessInfo`: one ps line to a `Record`. This is the generator's `rstrip().split(None, 2)`, the loop's three-way unpacking and the two `int()` calls. A line that makes the loop raise `ValueError` gives `None`.
- `ProcessRegistry`: the dictionary. `Insert` is one iteration of the builder loop. `Built` is a reference definition of the whole dictionary in terms of the record list: the last record for a pid wins, children come in input order with repeats kept, and an unseen pid reads the default entry.
- `ProcessTree`: the main block.
  - `LoadProcesses` is the builder loop as a `for` loop, proved equal to the reference `Parsed`.
  - `PrintTree` is the whole script on a list of ps lines.
- `ProcessPrefix`: the three prefix rewrites of lines 56, 61 and 67, and the column layout they add up to. The prefix of a node is one four-character column per ancestor below the root, then `" |- "` or ``" `- "``.
- `ProcessRender`: `print_hierarchy` as a recursive function, and the proof that its output is the pre-order walk drawn with that layout. The proof holds on a dictionary whose parent links and children lists agree (`Consistent`), which is what a snapshot with each pid once gives.
- `ProcessShape`: the shape of that walk on such a dictionary. It visits each pid once, and the node at depth d leads back to the root in exactly d `parent_pid` lookups. Every process reachable from the root by children links is visited at its distance from the root.
- `ProcessExample`: the four-process example (init, bash, sshd, zsh), followed from formatted ps lines to the printed lines.

**The Pomodoro timer** (`py_tools/work_tools/pomudora.py`) is a Tk window that counts down 25 minutes. It has Start, Pause and Reset buttons and locks the screen at zero. `Pomodoro.PomodoroTimer` is a class with the source's fields `running`, `paused` and `remaining_time`. The label's text is the field `display`. `root.after(1000, ...)` becomes a counter of queued ticks, `pendingTicks`. `lock_screen()` becomes a counter of lock requests, `lockRequests`. A ghost field `shownTime` records the number of seconds the label shows, so the invariant `Valid` can say the label lags the remaining time by at most one second.

## Behaviour worth knowing

- **Root pid absent.** Line 83 looks pid 1 up in a `defaultdict`. When no ps line has pid 1, the script prints the default entry as `(1)` as its first line and reports no error. `ProcessTree.RootAbsent` proves this for any loaded output without pid 1, and `ProcessTree.HeaderOnly` proves it for output with no process lines, where `(1)` is the only line.
- **Malformed or short lines.** A line with fewer than three fields fails the unpacking at line 75. A pid field that is not an integer literal fails `int()` at lines 76-77. Both raise `ValueError`, the script stops before line 83, and nothing is printed. `ProcessTree.LoadProcesses` returns `None` in those cases, and `ProcessTree.PrintTree` then prints no line.
- **Repeated records.** Each record appends its pid to its parent's children, so a record that appears twice is appended twice (`ProcessRegistry.DuplicateKept`). The dictionary's links then disagree, and the walk visits that pid twice (`ProcessExample.RepeatedInconsistent`, `ProcessExample.RepeatedWalk`). When the repeated pid is the last child, `children[-1] == x` holds for each copy, so every copy is drawn with ``"`- "`` (`ProcessExample.RepeatedPrintout`). The layout of the walk would draw the first copy with `" |- "` (`ProcessExample.RepeatedLayoutDiffers`).
- **A finished branch keeps its connector.** The comment at line 54 says the prefix is adjusted when the node's parent is the last child of the grandparent. The aim is a blank column under a branch that has ended. The pattern at line 56 only matches when a bar follows the prefix's leading whitespace. Under a last child of the root the column holds a back-quote, so it is not cleared, and zsh prints as `` `   `- zsh(4)`` instead of ``     `- zsh(4)`` (see Findings).
- **The tree's shape.** On a dictionary whose links agree and whose children graph has no cycle below the root, the walk visits each pid once. Each visit at depth d reaches the root through d `parent_pid` lookups, and every process reachable from the root is visited at its distance from it (`ProcessShape.WalkShape`). `ProcessShape.SnapshotShape` gives the same for any loaded snapshot with each pid once.
- **Pause, then Start, within one second.** `pause_timer` does not cancel the tick that `root.after` queued. A Start after it queues a second chain of ticks, and the countdown then loses two seconds per second. `Pomodoro.PauseAndRestart` exhibits this.

## Model

| member | source | states |
|---|---|---|
| PyText.RStrip | py_tools/sys_tools/process_tree_python3.py:34 | `line.rstrip()` is a prefix of the line that does not end in whitespace |
| PyText.IsSpace | py_tools/sys_tools/process_tree_python3.py:34 | `str.isspace`: ASCII 9-13 and 28-32 and the Unicode spaces U+0085, U+00A0, U+1680, U+2000-U+200A, U+2028, U+2029, U+202F, U+205F, U+3000. `RStripOf` and `SplitWhitespaceOfWords` use it for `rstrip` and `split` |
| PyText.RStripOf | py_tools/sys_tools/process_tree_python3.py:34 | rstrip removes exactly the trailing whitespace after the last non-space character |
| PyText.RStripOfBlank | py_tools/sys_tools/process_tree_python3.py:34 | rstrip of an all-whitespace line is empty |
| PyText.SplitWhitespace | py_tools/sys_tools/process_tree_python3.py:34 | `split(None, maxsplit)` yields at most maxsplit+1 fields. No field is empty or starts with whitespace. All but the remainder are single words. On a right-stripped string no field ends in whitespace |
| PyText.SplitWhitespaceOfWords | py_tools/sys_tools/process_tree_python3.py:34 | leading whitespace, a word and more whitespace give that word as the first field, and the rest is split with one split fewer |
| PyText.SplitWhitespaceSkips | py_tools/sys_tools/process_tree_python3.py:34 | leading whitespace does not change the fields |
| PyText.SplitWhitespaceRemainder | py_tools/sys_tools/process_tree_python3.py:34 | with no splits left, the single field is the text after the leading whitespace, inner and trailing text kept |
| PyText.IntStrip | py_tools/sys_tools/process_tree_python3.py:76-77 | the text `int()` reads after dropping the whitespace it ignores: empty, or starting and ending in a character it does not skip. `IntStripOfPadded` proves that exactly the padding goes |
| PyText.IsIntSpace | py_tools/sys_tools/process_tree_python3.py:76-77 | the whitespace `int()` skips: `str.isspace` less U+001C-U+001F. `IntSkipsOnlyItsWhitespace` shows a newline skipped and U+001C rejected |
| PyText.IntStripOfPadded | py_tools/sys_tools/process_tree_python3.py:76-77 | whitespace `int()` ignores on either side of a trimmed field is removed and the field is kept |
| PyText.StripOfTrimmed | py_tools/sys_tools/process_tree_python3.py:76-77 | a field with no surrounding whitespace is what `int()` reads, unchanged |
| PyText.ParseInt | py_tools/sys_tools/process_tree_python3.py:76-77 | `int()` on a string: a value only when the stripped text is non-empty. Its meaning is carried by `ParseIntOfIntToString` (every printed integer reads back) and `IntSkipsOnlyItsWhitespace` |
| PyText.IntSkipsOnlyItsWhitespace | py_tools/sys_tools/process_tree_python3.py:76-77 | `int()` skips a space and a newline around a numeral, but not U+001C, which `str.isspace` counts as whitespace |
| PyText.ParseSigned | py_tools/sys_tools/process_tree_python3.py:76-77 | a value only for non-empty text: an optional sign, then an unsigned literal. `ParseSignedOfNegative` and `ParseIntOfIntToString` state its values |
| PyText.ParseUnsigned | py_tools/sys_tools/process_tree_python3.py:76-77 | an unsigned literal is accepted exactly when it is digit groups separated by single underscores |
| PyText.ParseIntOfIntToString | py_tools/sys_tools/process_tree_python3.py:76-77 | `int(str(x)) == x` for every integer, negative ones included |
| PyText.ParseSignedOfNegative | py_tools/sys_tools/process_tree_python3.py:76-77 | a minus sign before a decimal numeral gives the negated value |
| PyText.DigitsValueOfNatToString | py_tools/sys_tools/process_tree_python3.py:76-77 | the decimal numeral of n has value n |
| PyText.IntToString | py_tools/sys_tools/process_tree_python3.py:65 | the pid as printed is a non-empty word, and it starts with '-' exactly when the pid is negative |
| PyText.NatToString | py_tools/sys_tools/process_tree_python3.py:65 | decimal digits with no leading zero, one digit exactly below 10 |
| ProcessInfo.Fields | py_tools/sys_tools/process_tree_python3.py:34 | the generator yields at most three fields, each non-empty and with no whitespace at either end |
| ProcessInfo.ParseRecord | py_tools/sys_tools/process_tree_python3.py:75-77 | a line gives a record exactly when it has three fields and both numbers convert. The record holds the converted numbers and the third field as the command |
| ProcessInfo.ParseFormatLine | py_tools/sys_tools/process_tree_python3.py:75-77 | any column-aligned ps line (any padding, a trailing newline) parses back to the record it was formatted from |
| ProcessInfo.FieldsOfColumns | py_tools/sys_tools/process_tree_python3.py:34 | the fields of such a line are ppid, pid and the whole command, inner blanks kept |
| ProcessInfo.BlankLineRejected | py_tools/sys_tools/process_tree_python3.py:75 | a blank line cannot be unpacked into three names |
| ProcessRegistry.Entry | py_tools/sys_tools/process_tree_python3.py:73 | a `defaultdict` lookup: the stored entry, or the default `{"", [], None}` for a missing key or `None`. `BuiltEntry` states what every lookup after the loop gives |
| ProcessRegistry.Built | py_tools/sys_tools/process_tree_python3.py:73-80 | the reference dictionary of a record list: the last record for a pid gives its command and parent, children are listed in input order with repeats. `BuiltSnoc` proves each loop iteration extends it, `BuiltEntry` reads it back and `BuiltConsistent` shows its links agree when no pid repeats |
| ProcessRegistry.Insert | py_tools/sys_tools/process_tree_python3.py:78-80 | one loop iteration sets the pid's command and parent and appends the pid to the parent's children. Every other entry is unchanged, and both keys exist afterwards |
| ProcessRegistry.LastWith | py_tools/sys_tools/process_tree_python3.py:78-79 | the last record with a pid, or None exactly when no record has it |
| ProcessRegistry.ChildrenOf | py_tools/sys_tools/process_tree_python3.py:80 | a pid is among k's children exactly when some record names k as its parent |
| ProcessRegistry.BuiltSnoc | py_tools/sys_tools/process_tree_python3.py:75-80 | the reference dictionary of the records so far, plus one record, is one loop iteration on it |
| ProcessRegistry.BuiltEntry | py_tools/sys_tools/process_tree_python3.py:73 | every lookup after the loop, unseen pids included: last command and parent, children in input order, the default `{"", [], None}` when no record mentions the pid |
| ProcessRegistry.LastWithSnoc | py_tools/sys_tools/process_tree_python3.py:78-79 | a later record for a pid overrides the earlier ones |
| ProcessRegistry.ChildrenOfSnoc | py_tools/sys_tools/process_tree_python3.py:80 | a record appends to its parent's children, at the end |
| ProcessRegistry.BuiltConsistent | py_tools/sys_tools/process_tree_python3.py:78-80 | when no pid repeats, every listed child names its parent back and no children list repeats |
| ProcessRegistry.DuplicateKept | py_tools/sys_tools/process_tree_python3.py:78-80 | a record given twice is appended twice, and its command is kept |
| ProcessTree.ParseAll | py_tools/sys_tools/process_tree_python3.py:75-77 | the unpacking and the two `int()` calls over every line after the header. `ParseAllRecords` and `ParseAllFails` state its result and its failure |
| ProcessTree.Parsed | py_tools/sys_tools/process_tree_python3.py:75-80 | the dictionary the main block builds after skipping the header line, or `None` where it raises. `LoadProcesses` is proved equal to it and `HeaderOnly` evaluates it |
| ProcessTree.ParseEachRecords | py_tools/sys_tools/process_tree_python3.py:75-77 | a successful parse keeps one record per line, in line order |
| ProcessTree.ParseEachFails | py_tools/sys_tools/process_tree_python3.py:75-77 | the loop fails exactly when some line fails |
| ProcessTree.ParseAllRecords | py_tools/sys_tools/process_tree_python3.py:75-77 | the records of a successful parse are the lines' records, one by one |
| ProcessTree.ParseAllFails | py_tools/sys_tools/process_tree_python3.py:75-77 | the main block raises ValueError exactly when some line after the header is rejected |
| ProcessTree.LoadProcesses | py_tools/sys_tools/process_tree_python3.py:73-80 | after the header line is skipped (line 32), the builder loop, one line at a time, leaves the reference dictionary of all records, or fails as the script does (no header line, or a rejected line) |
| ProcessTree.PrintTree | py_tools/sys_tools/process_tree_python3.py:71-83 | the script prints nothing exactly when loading fails. Otherwise it prints `print_hierarchy(processes, 1, '')` |
| ProcessTree.PrintoutOfSnapshot | py_tools/sys_tools/process_tree_python3.py:36-83 | for a snapshot with each pid once, the printout is the pre-order walk from pid 1, each line drawn with its path's layout |
| ProcessTree.HeaderOnly | py_tools/sys_tools/process_tree_python3.py:73-83 | with no process lines the dictionary is empty and pid 1 prints as its default entry, `(1)` |
| ProcessTree.RootAbsent | py_tools/sys_tools/process_tree_python3.py:73-83 | when no loaded ps line has pid 1, the first printed line is the default entry's `(1)` |
| ProcessRender.Basename | py_tools/sys_tools/process_tree_python3.py:47 | the basename is the suffix after the last '/' and holds no '/' |
| ProcessRender.BasenameOf | py_tools/sys_tools/process_tree_python3.py:47 | the basename of dir/name is name |
| ProcessRender.DisplayName | py_tools/sys_tools/process_tree_python3.py:45-49 | the basename of the command when that path exists, else the command. `BasenameOf` states what the basename is |
| ProcessRender.Label | py_tools/sys_tools/process_tree_python3.py:65 | name, then the pid in parentheses. `ExampleLabels` and `HeaderOnly` evaluate it |
| ProcessRender.IsLastChild | py_tools/sys_tools/process_tree_python3.py:55-62 | `children[-1] == x` on the parent's entry, false when the list is empty, as the `IndexError` handlers at lines 57 and 62 make it. `RenderKidsIsLayout` shows it flags exactly the final child |
| ProcessRender.ShownPrefix | py_tools/sys_tools/process_tree_python3.py:51-63 | the prefix after the two rewrites. `ShownIsLayout` proves it is the node's layout and `ShownConnector` gives its width and connector |
| ProcessRender.Render | py_tools/sys_tools/process_tree_python3.py:36-69 | `print_hierarchy` as the list of printed lines. On a dictionary whose parent links and children lists agree (`Consistent`), as a snapshot with each pid once gives, `RenderIsLayout` and `PrintoutIsLayout` prove it is the drawn pre-order walk. `RootLine` gives its first line on any dictionary |
| ProcessRender.RenderKids | py_tools/sys_tools/process_tree_python3.py:68-69 | the children loop as the lines it prints. On a `Consistent` dictionary, `RenderKidsIsLayout` proves it prints each subtree in stored order |
| ProcessRender.RootLine | py_tools/sys_tools/process_tree_python3.py:45-65 | the first line is the root's name and pid with an empty prefix |
| ProcessRender.ShownConnector | py_tools/sys_tools/process_tree_python3.py:59-69 | a child's prefix is 4 characters longer than its parent's and ends in the last-child connector (back-quote, dash, space) exactly when it is the last child, otherwise in the branch connector (bar, dash, space) |
| ProcessRender.LinesAppend | py_tools/sys_tools/process_tree_python3.py:65-69 | drawing a walk line by line distributes over concatenation |
| ProcessRender.RenderIsLayout | py_tools/sys_tools/process_tree_python3.py:36-69 | on a dictionary whose parent links and children lists agree (`Consistent`), as a snapshot with each pid once gives: from a node reached with given last-child flags, the printout is the pre-order walk, each node drawn with the layout of its flags |
| ProcessRender.RenderKidsIsLayout | py_tools/sys_tools/process_tree_python3.py:68-69 | on a `Consistent` dictionary, the children loop prints each child's subtree in stored order, and only the final child is flagged last |
| ProcessRender.ShownIsLayout | py_tools/sys_tools/process_tree_python3.py:51-63 | the two rewrites turn the inherited prefix into the node's layout |
| ProcessRender.PrintoutIsLayout | py_tools/sys_tools/process_tree_python3.py:36-69 | on a dictionary whose parent links and children lists agree (`Consistent`), as a snapshot with each pid once gives, `print_hierarchy(processes, root, '')` is the pre-order walk drawn with the layout |
| ProcessRender.RenderFuel | py_tools/sys_tools/process_tree_python3.py:36-69 | the output does not depend on the depth bound |
| ProcessShape.FiniteAcyclic | py_tools/sys_tools/process_tree_python3.py:36-69 | a children path from a node the recursion finishes on never ends back at its start |
| ProcessShape.PathAncestor | py_tools/sys_tools/process_tree_python3.py:78-80 | on a `Consistent` dictionary, following `parent_pid` from the end of a children path as many times as it has links reaches its start |
| ProcessShape.PathUnique | py_tools/sys_tools/process_tree_python3.py:78-80 | on a `Consistent` dictionary, two children paths from the same node, one the recursion finishes on, to the same pid are the same path |
| ProcessShape.WalkReaches | py_tools/sys_tools/process_tree_python3.py:66-69 | every visit of the walk from a node is reached from it by as many children links as its depth below it |
| ProcessShape.WalkDistinct | py_tools/sys_tools/process_tree_python3.py:66-69 | on a `Consistent` dictionary, the walk visits no pid twice |
| ProcessShape.WalkComplete | py_tools/sys_tools/process_tree_python3.py:66-69 | every pid reachable by children links is visited, at its distance from the start |
| ProcessShape.WalkShape | py_tools/sys_tools/process_tree_python3.py:36-69 | on a `Consistent` dictionary, the walk from the root visits each pid once, each visit at depth d has the root as its d-th `parent_pid` ancestor, and every pid reachable from the root is visited at its distance |
| ProcessShape.SnapshotShape | py_tools/sys_tools/process_tree_python3.py:71-83 | for a loaded snapshot with each pid once, the walk from pid 1 has that shape |
| ProcessPrefix.FixGrandparent | py_tools/sys_tools/process_tree_python3.py:56 | the substitution of line 56, keeping the length. `FixGrandparentIsSubstitution` proves it agrees with the pattern |
| ProcessPrefix.TrailingSpacesOf | py_tools/sys_tools/process_tree_python3.py:56 | the whitespace run before the final branch connector is measured exactly |
| ProcessPrefix.GroupOneIff | py_tools/sys_tools/process_tree_python3.py:56 | the computed group-1 test agrees with the pattern's group 1: a whitespace run, a bar, then at least one character |
| ProcessPrefix.MatchAt | py_tools/sys_tools/process_tree_python3.py:56 | the line-56 pattern matches with its bar or back-quote at the given position. As written, group 1 before it is a non-empty whitespace run, a bar and at least one more character; under the intended reading it starts with whitespace. Group 2 after it is whitespace ending in bar-dash-space. `GroupOneIff` and `FixGrandparentIsSubstitution` tie it to the computed substitution |
| ProcessPrefix.FixGrandparentIsSubstitution | py_tools/sys_tools/process_tree_python3.py:56 | where the line-56 pattern matches, exactly the matched connector becomes a space. Where it does not match, the prefix is unchanged |
| ProcessPrefix.FixAtMatch | py_tools/sys_tools/process_tree_python3.py:56 | a match at a position replaces exactly that character |
| ProcessPrefix.FixKeepsBranch | py_tools/sys_tools/process_tree_python3.py:56-61 | the fix-up never touches the final branch connector (bar, dash, space) |
| ProcessPrefix.MarkLast | py_tools/sys_tools/process_tree_python3.py:61 | a final bar-dash-space becomes back-quote-dash-space, and any other prefix is unchanged |
| ProcessPrefix.Dashless | py_tools/sys_tools/process_tree_python3.py:67 | `replace('-', ' ')`, keeping the length. `DashlessReplaces` states it character by character |
| ProcessPrefix.ChildPrefix | py_tools/sys_tools/process_tree_python3.py:67-69 | the prefix handed to each child. `ChildPrefixOfLayout` states it on a layout |
| ProcessPrefix.DashlessReplaces | py_tools/sys_tools/process_tree_python3.py:67 | `replace('-', ' ')` turns every dash into a space, keeps every other character and keeps the length |
| ProcessPrefix.DashlessAppend | py_tools/sys_tools/process_tree_python3.py:67 | the dash replacement works piecewise |
| ProcessPrefix.Rewrite | py_tools/sys_tools/process_tree_python3.py:52-63 | the rewrites keep the prefix length |
| ProcessPrefix.Layout | py_tools/sys_tools/process_tree_python3.py:52-69 | the prefix of a node from its last-child flags: one column per ancestor below the root, then the connector. `LayoutLength`, `LayoutColumn` and `LayoutConnector` give its width, columns and connector, and `RewriteStep` proves the rewrites build it |
| ProcessPrefix.LayoutLength | py_tools/sys_tools/process_tree_python3.py:69 | a node at depth d has a prefix of width 4·d |
| ProcessPrefix.LayoutColumn | py_tools/sys_tools/process_tree_python3.py:67-69 | column k of a prefix is the column of the ancestor at depth k+1 |
| ProcessPrefix.LayoutConnector | py_tools/sys_tools/process_tree_python3.py:61 | the prefix ends in "`- " exactly when the node is the last child |
| ProcessPrefix.ChildPrefixOfLayout | py_tools/sys_tools/process_tree_python3.py:67-69 | the prefix handed to the children is the node's columns, then its own connector with the dash removed, then a new branch connector (space, bar, dash, space) |
| ProcessPrefix.GroupOneOfColumns | py_tools/sys_tools/process_tree_python3.py:56 | on a layout, group 1 matches exactly when that ancestor's column is cleared |
| ProcessPrefix.RewriteStep | py_tools/sys_tools/process_tree_python3.py:52-69 | one recursion level: the rewrites applied to the parent's child prefix give the child's layout |
| ProcessPrefix.RewriteEmpty | py_tools/sys_tools/process_tree_python3.py:52-63 | the root's empty prefix survives both rewrites |
| ProcessPrefix.IntendedContinuation | py_tools/sys_tools/process_tree_python3.py:54-56 | with the intended fix-up, the column of an ancestor is blank exactly when that ancestor was a last child |
| ProcessExample.ExampleBuilt | py_tools/sys_tools/process_tree_python3.py:73-80 | the four example records build the five-entry dictionary, pid 0 included |
| ProcessExample.ExampleConsistent | py_tools/sys_tools/process_tree_python3.py:78-80 | the example dictionary's links agree |
| ProcessExample.ExampleWalk | py_tools/sys_tools/process_tree_python3.py:66-69 | the walk from pid 1 visits init, bash, sshd and zsh, flagging sshd and zsh as last children |
| ProcessExample.ExampleLayouts | py_tools/sys_tools/process_tree_python3.py:52-69 | the four prefixes of the example under both readings of line 56 |
| ProcessExample.ExamplePrintout | py_tools/sys_tools/process_tree_python3.py:36-69 | the example's printout, line by line |
| ProcessExample.ExampleAsWritten | py_tools/sys_tools/process_tree_python3.py:56 | as written, zsh is printed as `` `   `- zsh(4)`` |
| ProcessExample.ExampleIntended | py_tools/sys_tools/process_tree_python3.py:54-56 | with the intended pattern it is printed as ``     `- zsh(4)`` |
| ProcessExample.PsLineParses | py_tools/sys_tools/process_tree_python3.py:75-77 | a ps line of a record, with the padding ps puts around single-digit pids, parses back to it |
| ProcessExample.ExampleParsed | py_tools/sys_tools/process_tree_python3.py:73-80 | the example's ps output loads as the example dictionary |
| ProcessExample.ExampleRun | py_tools/sys_tools/process_tree_python3.py:71-83 | the script on the example ps output prints exactly four lines: init(1), then bash(2) and sshd(3) under branch and last-child connectors, then zsh(4) with its ancestor's back-quote still in the first column |
| ProcessExample.RepeatedBuilt | py_tools/sys_tools/process_tree_python3.py:73-80 | the records (0,1,a), (1,2,b), (1,2,b) build a dictionary in which a lists b twice |
| ProcessExample.RepeatedInconsistent | py_tools/sys_tools/process_tree_python3.py:78-80 | that dictionary's links disagree |
| ProcessExample.RepeatedWalk | py_tools/sys_tools/process_tree_python3.py:66-69 | its walk visits pid 2 twice, the second copy flagged last |
| ProcessExample.RepeatedPrintout | py_tools/sys_tools/process_tree_python3.py:36-69 | the script prints a(1), then b(2) twice, each copy with the last-child connector |
| ProcessExample.RepeatedLayoutDiffers | py_tools/sys_tools/process_tree_python3.py:52-69 | the walk's layout would draw the first copy with the branch connector |
| Pomodoro.Display | py_tools/work_tools/pomudora.py:72-73 | `f"{m:02}:{s:02}"` of `divmod(t, 60)` ends in ":SS" |
| Pomodoro.DisplayReadsBack | py_tools/work_tools/pomudora.py:72-73 | below 100 minutes the display is MM:SS and reads back as minutes·60+seconds, with seconds below 60 |
| Pomodoro.DisplayInjective | py_tools/work_tools/pomudora.py:72-73 | two different times below 100 minutes never show the same text |
| Pomodoro.DisplayConstants | py_tools/work_tools/pomudora.py:98-105 | 1500 seconds show as "25:00", the constant the source writes, and 0 shows as "00:00" |
| PyText.Pad2 | py_tools/work_tools/pomudora.py:73 | `:02` gives at least two digits, exactly two with the right value below 100 |
| Pomodoro.PomodoroTimer.Valid | py_tools/work_tools/pomudora.py:64-105 | the invariant every method keeps: time within one session, never running and paused at once, the label showing the remaining time or one second more |
| Pomodoro.PomodoroTimer.constructor | py_tools/work_tools/pomudora.py:42-50 | a fresh timer is stopped, not paused, at 1500 seconds, showing "25:00", nothing queued, no lock |
| Pomodoro.PomodoroTimer.UpdateTime | py_tools/work_tools/pomudora.py:64-79 | one tick shows the remaining time. If time is left, it takes one second off and queues the next tick. At zero it stops and requests the lock once. When stopped it does nothing. The Valid invariant is kept |
| Pomodoro.PomodoroTimer.RunScheduledTick | py_tools/work_tools/pomudora.py:76 | the event loop runs a queued tick, with the effect of `update_time` |
| Pomodoro.PomodoroTimer.StartTimer | py_tools/work_tools/pomudora.py:81-88 | only a stopped timer starts. It clears paused and ticks at once. A running timer is unchanged |
| Pomodoro.PomodoroTimer.PauseTimer | py_tools/work_tools/pomudora.py:90-96 | only a running timer pauses. The time, the display and queued ticks are unchanged; the queued tick is not cancelled |
| Pomodoro.PomodoroTimer.ResetTimer | py_tools/work_tools/pomudora.py:98-105 | from any state: stopped, not paused, 1500 seconds, "25:00"; the queue and the lock count stay |
| Pomodoro.PauseAndRestart | py_tools/work_tools/pomudora.py:76-96 | Start, Pause, Start within one second leaves two tick chains queued, and two seconds are already gone |
| Pomodoro.FullSession | py_tools/work_tools/pomudora.py:64-88 | after Start, running every queued tick ends stopped at "00:00" with nothing queued and exactly one lock request |

## Left out

- Process I/O: `subprocess.Popen` and the ps command are replaced by the list of lines they produce. `print` is replaced by the list of printed lines.
- `os.path.exists` is a parameter `pathExists`, since it queries the file system.
- `lock_screen` (`ctypes`, `os.system`, its message) is recorded as a lock request only, since it makes operating-system calls.
- The Tk window, label and buttons are left out. The label's text is the `display` field, and a button press is a method call.
- `root.after` timing: a queued tick is a count in `pendingTicks`. The event loop running one is `RunScheduledTick`. Wall-clock time is not modelled.
- Concurrency: none in the sources beyond the event loop, which is modelled as above.
- Recursion limits and cycles: `Render` needs a ghost depth bound (`Finite`), so a children graph with a cycle, which the script would recurse on until Python's recursion limit, is outside the model. An acyclic tree deeper than that limit (about 1000 frames) raises `RecursionError` at lines 68-69; the model prints it in full.
- `int()`'s limit on the number of digits it converts (4300 by default) is not modelled. A pid field that long is not something ps prints.
- ProcessRender.Render: the `defaultdict` lookups inside `print_hierarchy` insert default entries for unseen keys. The model reads the default without inserting it, so later lookups see the same value.
- The regexes at lines 56 and 61 are modelled for prefixes built from spaces, bars, back-quotes and dashes. The newline behaviour of `.` and `$` is not modelled, since a prefix never holds a newline.
- `int()` is modelled for ASCII digits, an optional sign and `_` separators. Whitespace is modelled as `str.isspace` defines it, and `int()` skips the narrower set `IsIntSpace`, which leaves out U+001C to U+001F. Unicode digits are not modelled, since ps prints ASCII.
- `remaining_time` is an unbounded integer, as in Python. No width is involved.

## Findings

| source | as written | input that shows it | evidently intended | confidence | as-written member | corrected member |
|---|---|---|---|---|---|---|
| py_tools/sys_tools/process_tree_python3.py:56 | group 1 of the pattern needs a bar right after the prefix's leading whitespace run. Under a last child of the root the first column holds a back-quote, so no column below it is ever blanked, and the first column never is | records (0,1,/sbin/init), (1,2,/usr/bin/bash), (1,3,/usr/bin/sshd), (3,4,/usr/bin/zsh): zsh is printed with a back-quote in the first column | the column of an ancestor that was a last child is blank, so zsh is printed after eight characters of which only the connector is visible | not executed | ProcessExample.ExampleAsWritten | ProcessExample.ExampleIntended |

The as-written reading is the `AsWritten` case of `ProcessPrefix.Fixup`. Its column rule is `ProcessPrefix.Cleared`, tied to the regex by `ProcessPrefix.GroupOneOfColumns`. The corrected reading is the `Intended` case, with its property proved in `ProcessPrefix.IntendedContinuation` (a blank column exactly under ancestors that were last children). The rendering and layout lemmas (`ProcessRender.PrintoutIsLayout`, `ProcessPrefix.RewriteStep` and the ones they rest on) are proved for both readings. `ProcessTree.PrintTree` and `ProcessExample.ExampleRun` describe the script as it runs, so they use `AsWritten`.

# ping-tui command builder and run guard, in Dafny

`ping_tui.py` is a Textual front end for the Windows `ping` command. It
has six checkboxes (`-t -a -f -4 -6 -p`), eight text inputs (`-n -l -w
-i -S -v -r -c`) and a target input. Every edit rebuilds the argument
vector and shows it, joined by single spaces, as a preview line. The run
button launches the stored vector in a log view, and escape either goes
back to the form or quits. This project models that logic and proves what
it promises.

- `text.dfy` (module `Text`) holds the string operations the builder uses.
  - `Strip` is Python's `str.strip()` with no argument, over the exact
    character set of `str.isspace()`.
  - `Join` is `" ".join`.
  - `Split` is `str.split(" ")`.
- `command.dfy` (module `Command`) holds the builder.
  - The widget values are a `Form` record of six booleans, eight raw
    strings and a raw target.
  - The two `(widget, flag)` tables copy the source's lists.
  - The specification function `Argv` is recursive over those tables.
  - `BuildCommand` is `update_preview` as written: two `for` loops that
    append to `cmd`, proved to compute `Argv` and its join.
- `argv_properties.dfy` (module `ArgvProperties`) proves what the argument
  vector looks like:
  - the program token, the flag block, the value pairs and the target;
  - the counts, the order and the trimming;
  - that only the trimmed form matters;
  - that toggling one box inserts or removes exactly its flag.
- `preview.dfy` (module `PreviewLine`) covers the preview line:
  - its initial text, `ping [target]`;
  - when it splits back into the vector;
  - a pair of forms whose previews agree while their vectors differ.
- `app.dfy` (module `App`) holds the class `PingApp`. Its fields are the
  form, `current_command` (unset until the first rebuild), the preview
  text, the shown view, an exit flag, the log lines, and the record of
  every vector handed to the runner.
  - The event handlers are methods.
  - The invariant `Valid` ties the stored command and the preview to the
    form in every reachable state.

The run guard (ping_tui.py:210-211) tests the raw target text for
emptiness, not the trimmed text. Its `"Target required!"` notice suggests
that a target is required, but a target of only whitespace passes the
guard and runs with the placeholder `[target]` as its last argument. The
model follows the code, and `App.PingApp.ButtonPressed` states the
whitespace case outright.

## Model

| member | source | states |
|---|---|---|
| Text.Strip | ping_tui.py:196 | `str.strip()`: whitespace removed from both ends; what that means is stated by the lemmas below, `Text.StripUnique` above all |
| Text.IsSpaceCharacters | ping_tui.py:196 | the whitespace `strip()` removes is exactly the character list of `str.isspace()`: U+0009..U+000D, U+001C..U+001F, space, U+0085, U+00A0, U+1680, U+2000..U+200A, U+2028, U+2029, U+202F, U+205F, U+3000 |
| Text.TrimStartSpec | ping_tui.py:196 | stripping the left end keeps a suffix, removes only whitespace, and leaves no leading whitespace |
| Text.TrimEndSpec | ping_tui.py:196 | stripping the right end keeps a prefix, removes only whitespace, and leaves no trailing whitespace |
| Text.StripEmpty | ping_tui.py:196-197 | a text strips to nothing exactly when it is all whitespace, which is when `if val:` skips the input |
| Text.StripHasNoOuterSpace | ping_tui.py:196 | a stripped text neither starts nor ends with whitespace |
| Text.StripKeepsCharacters | ping_tui.py:196 | stripping introduces no character the input did not hold |
| Text.StripIsTrimmedSlice | ping_tui.py:196 | the stripped text is a contiguous slice of the input with only whitespace cut on either side |
| Text.TrimStartAt | ping_tui.py:196 | removing leading whitespace stops exactly at the first character that is not whitespace |
| Text.TrimEndAt | ping_tui.py:196 | removing trailing whitespace stops exactly after the last character that is not whitespace |
| Text.StripUnique | ping_tui.py:196 | any slice cut between whitespace-only margins, with no whitespace at its own ends, is the stripped text (an independent definition of `strip`) |
| Text.Join | ping_tui.py:204 | `" ".join`: the tokens with one space between neighbours; `Text.SplitJoin` and `Text.JoinSplit` relate it to `str.split(" ")` |
| Text.SplitJoin | ping_tui.py:204 | splitting the space-joined tokens on spaces gives the tokens back when no token holds a space |
| Text.JoinSplit | ping_tui.py:204 | joining the pieces of a split restores the string |
| Command.WithChecked | ping_tui.py:174-175 | a checkbox change sets that box and leaves every other box, every input and the target alone |
| Command.WithEntry | ping_tui.py:171-172 | an input change sets that input and leaves every other input, every box and the target alone |
| Command.TargetToken | ping_tui.py:200-201 | the stripped target, or `[target]` when nothing is left of it; `ArgvProperties.ArgvShape` states the placeholder case |
| Command.Argv | ping_tui.py:177-203 | the vector `update_preview` stores: `ping`, the flags of the checked boxes, the `[flag, text]` pairs of the non-empty stripped inputs, and the target token; characterised independently by the `ArgvProperties` lemmas |
| Command.Preview | ping_tui.py:204 | the preview text: `Argv` joined by single spaces |
| Command.BuildCommand | ping_tui.py:177-204 | the two loops build exactly `Argv(form)`, and the preview is its space-join |
| Command.FlagLoopStep | ping_tui.py:184-186 | one turn of the flag loop extends the command by the row's flag when its box is checked |
| Command.ValueLoopStep | ping_tui.py:195-198 | one turn of the value loop extends the command by the row's flag and trimmed text when that text is non-empty |
| Command.FlagTokensSnoc | ping_tui.py:184-186 | scanning one more flag row appends that row's contribution |
| Command.ValueTokensSnoc | ping_tui.py:195-198 | scanning one more value row appends that row's contribution |
| ArgvProperties.FlagTableOrder | ping_tui.py:181-183 | the flag table lists `-t -a -f -4 -6 -p` in that order |
| ArgvProperties.FlagTableRows | ping_tui.py:181-183 | flag tokens and checkboxes are pairwise distinct, and every flag token is non-empty, without whitespace at its ends and without a space |
| ArgvProperties.NumCheckedCounts | ping_tui.py:184-186 | counting the checked rows of the flag table gives the number of checked boxes, counted field by field |
| ArgvProperties.ValueTableOrder | ping_tui.py:190-193 | the value table lists `-n -l -w -i -S -v -r -c` in that order |
| ArgvProperties.ValueTableRows | ping_tui.py:190-193 | value flags and inputs are pairwise distinct, and every value flag is non-empty, without whitespace at its ends and without a space |
| ArgvProperties.NumFilledCounts | ping_tui.py:195-198 | counting the rows whose trimmed text is non-empty gives the number of filled inputs, counted field by field |
| ArgvProperties.FlagTokensLength | ping_tui.py:184-186 | the flag block has one token per checked row |
| ArgvProperties.FlagTokensOnlyFromTable | ping_tui.py:184-186 | a string that is no row's flag never occurs in the flag block |
| ArgvProperties.FlagTokenCount | ping_tui.py:184-186 | a row's flag occurs once in the flag block when its box is checked and not at all otherwise |
| ArgvProperties.FlagTokensInOrder | ping_tui.py:184-186 | the flag block is a subsequence of the table order |
| ArgvProperties.FlagTokensAgree | ping_tui.py:184-186 | the flag block depends on nothing but the boxes' states |
| ArgvProperties.FlagTokensToggle | ping_tui.py:184-186 | for two forms that differ only in one row, checked in the first and unchecked in the second, the first's flag block is the second's with that row's flag inserted after the flags of the checked rows before it |
| ArgvProperties.ValueTokensLength | ping_tui.py:195-198 | the value block holds two tokens per filled row, one flag and one text each |
| ArgvProperties.ValueFlagsOnlyFromTable | ping_tui.py:195-198 | a string that is no row's flag never occurs at a flag position of the value block |
| ArgvProperties.ValueFlagCount | ping_tui.py:195-198 | a row's flag occurs once among the value flags when its trimmed text is non-empty and not at all otherwise |
| ArgvProperties.ValueFlagsInOrder | ping_tui.py:195-198 | the value flags are a subsequence of the table order |
| ArgvProperties.ValueTokensPaired | ping_tui.py:195-198 | each value flag is immediately followed by its own input's trimmed text |
| ArgvProperties.FlagTokensAll | ping_tui.py:184-186 | a property of every table flag holds of every token of the flag block |
| ArgvProperties.ValueTokensAll | ping_tui.py:195-198 | a property of every table flag and of every non-empty trimmed text holds of every token of the value block |
| ArgvProperties.ValueTokensAgree | ping_tui.py:195-198 | the value block depends on nothing but the trimmed texts |
| ArgvProperties.ArgvShape | ping_tui.py:177-201 | the vector has 2 + checked + 2 × filled tokens, starts with `ping`, and ends with the trimmed target, or with `[target]` when the target is all whitespace |
| ArgvProperties.ArgvParts | ping_tui.py:177-201 | between `ping` and the target come exactly the flag block, then the value block |
| ArgvProperties.FlagsInArgv | ping_tui.py:181-187 | right after `ping`, each box's flag occurs once when checked and not at all otherwise, in table order, whatever order the boxes were edited in |
| ArgvProperties.ValuesInArgv | ping_tui.py:190-198 | after the flags come the pairs: an input's flag occurs once when its text is not all whitespace and not at all otherwise, in table order, each followed by that input's trimmed text |
| ArgvProperties.ValueFlagsCounted | ping_tui.py:195-198 | an input's flag occurs once among the value flags exactly when the input is not all whitespace |
| ArgvProperties.ArgvAll | ping_tui.py:177-201 | a property of `ping`, of every table flag, of every non-empty trimmed text and of the target token holds of every token |
| ArgvProperties.ArgvTokensTrimmed | ping_tui.py:196-201 | no token is empty or has whitespace at either end |
| ArgvProperties.ArgvDependsOnTrimmedForm | ping_tui.py:177-201 | forms that agree on the boxes and on every trimmed text give the same vector, whatever edits led to them |
| ArgvProperties.WhitespaceEntryIsEmpty | ping_tui.py:196-198 | an input holding only whitespace gives the same vector as the empty input |
| ArgvProperties.ToggleFlag | ping_tui.py:184-186 | the vector with a box checked is the vector with it unchecked plus its flag, inserted right after `ping` and the checked flags before it |
| ArgvProperties.CountCheckedAgree | ping_tui.py:184-186 | the number of checked rows depends only on the rows' boxes |
| ArgvProperties.WithCheckedDiffers | ping_tui.py:174-175 | setting a box on and setting it off give forms that differ in that row alone, with the same checked rows before it |
| ArgvProperties.ArgvWithChecked | ping_tui.py:174-175 | a checkbox change leaves the value block and the target token as they were |
| PreviewLine.FlagTokensNone | ping_tui.py:184-186 | with no box checked the flag block is empty |
| PreviewLine.ValueTokensNone | ping_tui.py:195-198 | with every input empty or whitespace the value block is empty |
| PreviewLine.BlankFormArgv | ping_tui.py:177-201 | a form with nothing checked and only whitespace typed gives `ping [target]` as its vector |
| PreviewLine.BlankFormPreview | ping_tui.py:159 | the preview of such a form equals the text the preview widget starts with |
| PreviewLine.PreviewSplitsBack | ping_tui.py:203-204 | when no input and not the target holds a space, the preview splits back into the stored vector |
| PreviewLine.StripTidy | ping_tui.py:196 | a text with no whitespace at either end is its own strip |
| PreviewLine.LeadingValues | ping_tui.py:195-198 | when only the first rows are filled, the value block comes from those rows alone |
| PreviewLine.ValueTokensSplit | ping_tui.py:195-198 | the value block over a table is the block over a prefix followed by the block over the rest |
| PreviewLine.CountOnlyArgv | ping_tui.py:177-201 | a form with only a count and a target gives `ping -n <count> <target>` |
| PreviewLine.CountAndSizeArgv | ping_tui.py:177-201 | a form with only a count, a size and a target gives `ping -n <count> -l <size> <target>` |
| PreviewLine.PreviewCanBeAmbiguous | ping_tui.py:203-204 | without that condition the preview does not determine the vector: a count of `n -l l` and a count `n` with a size `l` show the same line but run different vectors |
| App.EmptyFormUntouched | ping_tui.py:120-159 | the widgets as composed hold no checked box and no text |
| App.RunningLine | ping_tui.py:217 | the markup line written to the cleared log: `[bold green]Running: `, the joined command, `[/]` |
| App.PingApp.constructor | ping_tui.py:120-159 | the app starts in the form view with a blank form, the preview `ping [target]`, no stored command, nothing logged or run, and its invariant holding |
| App.PingApp.UpdatePreview | ping_tui.py:177-204 | `current_command` becomes the form's vector and the preview its space-join; nothing else changes |
| App.PingApp.CheckboxChanged | ping_tui.py:174-175 | the box takes its new state and the stored command and preview are rebuilt from the new form |
| App.PingApp.InputChanged | ping_tui.py:171-172 | the input takes its new text and the stored command and preview are rebuilt from the new form |
| App.PingApp.ButtonPressed | ping_tui.py:206-218 | another button, or an empty raw target, changes nothing; otherwise the log view is shown, the log holds only the running line, and the stored vector, which is the form's vector, is launched; a whitespace-only target launches a vector ending in `[target]` |
| App.PingApp.ToggleView | ping_tui.py:220-225 | from the log view escape returns to the form without exiting; from the form it exits; nothing else changes |
| App.PreviewShowsForm | ping_tui.py:159-204 | in every valid state the preview shows the form's vector, before the first rebuild as well as after |
| App.StoredCommandMatchesPreview | ping_tui.py:203-204 | the stored command splits back out of the preview when no input holds a space |

## Left out

- Layout, CSS, `compose` beyond the initial widget values, `_build_checkbox_row`, `_build_input_row` and `on_descendant_focus` are rendering only.
- `run_process` is not part of this model. It runs `subprocess.Popen` on a worker thread and streams its output back to the log, which is OS I/O and concurrency. A launch is recorded as the vector appended to `launched`.
- `self.notify("Target required!")` is a UI side effect. The model states only that nothing else changes on that path.
- Widget queries and Textual's event dispatch are not modelled. Each handler is a method called with the new widget value, and `query_one(...).value` is the matching `Form` field.
- Rich markup is not interpreted. The log line is kept as the literal markup string the source writes.
- Textual posts `Changed` only when a widget's value actually changes, and delivers no event after `exit()`. `App.PingApp.CheckboxChanged` and `App.PingApp.InputChanged` also accept an unchanged value and rebuild the same command; every handler requires that the app has not exited.
- Python strings are modelled as sequences of Unicode scalar values. Lone surrogates, which a Python `str` can hold, cannot occur in the model.

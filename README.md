# byobu session chooser and configuration logic, modelled in Dafny

This project models two scripts of byobu, the wrapper around the tmux terminal
multiplexer.

- `select-session.py` is the session chooser. It lists the live tmux sessions and
  hides internal ones. When the choice is ambiguous it shows a numbered menu with
  up to three tries. It then hands the terminal to a session, to a new byobu session
  or to a plain shell. Before attaching it copies environment variables into the
  session and kills the unattached "zombie" sessions of the session's group.
- `config.py` is the configuration utility. The model covers its non-interactive
  logic:
  - reading the status-notification flags from the shared and the user's status
    files, regenerating a status template, and rewriting the user's file;
  - reading the escape key from the keybindings file, the rule that sanitises the
    escape-key field, and the alphabetic guard before the key is set;
  - the test for "byobu launches at login";
  - the menu loop.

Both scripts change state step by step, so the model is imperative. Each Python loop
is a Dafny method with a loop. Each method is proved against a specification
function, and the properties are lemmas about those functions. The chooser's module
globals (`choice`, `sessions`, `text`) are the fields of the class
`SelectSession.Resolver`.

Process calls are inputs and outputs of the model:
- the `tmux list-sessions` listings come in as lines;
- the answers typed at the prompt come in as a sequence of `Input`s;
- files come in as their lines, or `None` when they are missing. For `.profile` in
  `autolaunch`, whose `open` error the code catches, `None` also stands for a file
  that cannot be opened. Lines read from files keep their `\n`, as `readlines` and
  file iteration give them;
- what the scripts would run comes out as argument lists. The chooser returns an
  `Action`: the commands it starts, then the program it `exec`s.

Files:
- `common.dfy`: `Option` and `Outcome` (a value or a raised exception).
- `pystr.dfy`: the Python `str` builtins the scripts use.
- `sorting.dfy`: Python's ordering of strings and `sorted`.
- `select_session.dfy`: the chooser.
- `config.dfy`: the configuration logic.

One behaviour of the prompt is easy to misread in the code. Take the answers `99`,
`abc`, `2` on a three-entry menu. `99` is out of range and uses a try. `abc` fails
both `int` and `eval`, so it reaches the generic exception handler while no choice is
set. That handler picks entry 1 and leaves the loop, so `2` is never read.
`SelectSession.AbcPicksFirst` proves this outcome.

## Model

| member | source | states |
|---|---|---|
| SelectSession.Resolver.GetSessions | usr/lib/byobu/include/select-session.py:47-62 | the returned tokens and the labels appended to the menu text are those of the visible listing lines, in listing order |
| SelectSession.KeptFilter | usr/lib/byobu/include/select-session.py:55-58 | a listing line is kept exactly when it is in the listing and visible |
| SelectSession.KeptAppend | usr/lib/byobu/include/select-session.py:56-58 | filtering distributes over concatenation, so kept lines keep their relative order |
| SelectSession.VisibleMeans | usr/lib/byobu/include/select-session.py:58 | a line is visible iff it is non-empty, does not start with `_` and has no `-` anywhere in the whole line |
| SelectSession.ListingPairs | usr/lib/byobu/include/select-session.py:59-61 | there are as many tokens as labels as kept lines |
| SelectSession.ListingAt | usr/lib/byobu/include/select-session.py:59-60 | the i-th token is `tmux____` plus the text before the first `:` of the i-th kept line, and the i-th label is `tmux: ` plus that line stripped |
| SelectSession.TokenRoundTrip | usr/lib/byobu/include/select-session.py:90-105 | `split("____", 2)` of a token gives back `("tmux", name)` when the name has no `____`, and otherwise the unpacking raises |
| SelectSession.RealEntriesAreTmux | usr/lib/byobu/include/select-session.py:96-114 | every listed token unpacks to the tmux backend and is neither `NEW` nor `SHELL`, so the screen branches are never taken |
| SelectSession.Resolver.Augment | usr/lib/byobu/include/select-session.py:119-124 | `NEW` and then `SHELL`, with their labels, are appended exactly when there is more than one session or the always-select marker exists; nothing else changes |
| SelectSession.Augmentation | usr/lib/byobu/include/select-session.py:119-124 | the entries start with the listed tokens; two more follow iff there are several sessions or the marker, and they are `NEW` then `SHELL`; otherwise neither appears |
| SelectSession.Judge | usr/lib/byobu/include/select-session.py:134-161 | an answer that ends the loop with a choice chooses entry 1 or an entry in range |
| SelectSession.Prompt | usr/lib/byobu/include/select-session.py:128-161 | the prompt loop ends with no choice (-1), an entry in range, or an interrupt |
| SelectSession.Resolver.Ask | usr/lib/byobu/include/select-session.py:134-161 | one pass of the loop body stops exactly on an interrupt or an accepted answer, sets `choice` to the accepted entry, and leaves it at -1 after a rejected answer |
| SelectSession.Resolver.Choose | usr/lib/byobu/include/select-session.py:126-164 | the loop's choice and its interrupt are those of the prompt specification when there are several entries; a lone entry is chosen without a prompt; no entry leaves the choice at -1 |
| SelectSession.Selected | usr/lib/byobu/include/select-session.py:126-164 | the selection is never outside the menu: -1 or an entry in 1..count |
| SelectSession.NoPromptWithoutChoice | usr/lib/byobu/include/select-session.py:162-177 | with one session and no marker that session is attached whatever was typed; with no session the script runs a bare `tmux` |
| SelectSession.EmptyAnswerPicksFirst | usr/lib/byobu/include/select-session.py:135-141 | an empty answer, a failed read or no more input picks entry 1 |
| SelectSession.InRangeAccepted | usr/lib/byobu/include/select-session.py:143-147 | an integer answer in 1..count is the choice |
| SelectSession.EvaluatedInRangeAccepted | usr/lib/byobu/include/select-session.py:142-147 | an answer `int` rejects but `eval` turns into a number in 1..count is the choice |
| SelectSession.ShownNumberSelects | usr/lib/byobu/include/select-session.py:130-147 | typing the number printed before entry k selects entry k |
| SelectSession.UnparseablePicksFirst | usr/lib/byobu/include/select-session.py:142-158 | an answer that is neither an integer nor something `eval` turns into one picks entry 1 and does not use a try |
| SelectSession.RejectUsesTry | usr/lib/byobu/include/select-session.py:148-151 | a rejected answer uses one try and the loop goes on with the next answer |
| SelectSession.RejectedMeansOutOfRange | usr/lib/byobu/include/select-session.py:146-150 | only a non-empty answer giving a number outside 1..count is rejected |
| SelectSession.ThreeRejections | usr/lib/byobu/include/select-session.py:129-150 | three rejected answers leave no choice, whatever follows |
| SelectSession.AbcPicksFirst | usr/lib/byobu/include/select-session.py:142-158 | the answers `99`, `abc`, `2` on a three-entry menu choose entry 1 |
| SelectSession.Resolver.Dispatch | usr/lib/byobu/include/select-session.py:166-177 | the action is the dispatch specification's: `NEW`, `SHELL`, attaching a listed session, or bare `tmux` when there is no choice |
| SelectSession.ShellEntryRunsShell | usr/lib/byobu/include/select-session.py:166-171 | whatever answers select the last entry of an augmented menu, the script execs the shell and runs no other command |
| SelectSession.NewEntryStartsSession | usr/lib/byobu/include/select-session.py:166-169 | whatever answers select the entry before it, the script execs `byobu new-session <shell>` |
| SelectSession.AttachRealSession | usr/lib/byobu/include/select-session.py:103-114 | choosing listed session k runs the `setenv` commands, then the zombie kills of the second listing, then execs `tmux -u new-session -t name ; set-option destroy-unattached` with the reuse marker or `tmux -u attach -t name` without; a name containing `____` raises `ValueError` |
| SelectSession.AttachSession | usr/lib/byobu/include/select-session.py:103-114 | the action is the attach specification's: environment commands, then kills, then the attach `exec` |
| SelectSession.UpdateEnvironment | usr/lib/byobu/include/select-session.py:91-100 | a token that does not unpack raises `ValueError`; otherwise the commands are one `setenv` per set variable, in list order |
| SelectSession.EnvCommandsMatch | usr/lib/byobu/include/select-session.py:93-100 | the i-th command sets the i-th set variable to its value in the chosen session |
| SelectSession.SetVarsCount | usr/lib/byobu/include/select-session.py:93-95 | a variable is pushed as often as it is listed when set and non-empty, and never otherwise |
| SelectSession.UnsetNeverPushed | usr/lib/byobu/include/select-session.py:94-95 | an unset or empty variable is never pushed |
| SelectSession.GpgAgentInfoTwice | usr/lib/byobu/include/select-session.py:44-100 | GPG_AGENT_INFO is pushed twice when set and not at all otherwise |
| SelectSession.GroupAt | usr/lib/byobu/include/select-session.py:80 | a captured group starts at an opening parenthesis, begins with `group ` and holds no `)` |
| SelectSession.CullZombies | usr/lib/byobu/include/select-session.py:65-88 | the kill commands are the culling specification's: none for an empty listing or without a master line, else one per satellite line of the master's group |
| SelectSession.NoMasterNoKills | usr/lib/byobu/include/select-session.py:74-83 | an empty listing or a listing without a master line gives no kill |
| SelectSession.KillsMatch | usr/lib/byobu/include/select-session.py:86-88 | there is one kill per satellite line, in order; each satellite is a line of the listing, and its kill targets `_<name>-<digits>` |
| SelectSession.SatelliteTarget | usr/lib/byobu/include/select-session.py:86-88 | the text before the first `:` of a satellite line is `_<name>-<digits>` |
| SelectSession.SatellitesComplete | usr/lib/byobu/include/select-session.py:85-87 | a line is among the satellites exactly when it is a listing line that matches the satellite pattern |
| SelectSession.EveryZombieKilled | usr/lib/byobu/include/select-session.py:80-88 | once a master line gives the group, every listing line that matches the satellite pattern of that group is killed |
| SelectSession.CullOneSatellite | usr/lib/byobu/include/select-session.py:74-88 | with a master and one line of each kind, the kill list is exactly the kill of the one satellite |
| SelectSession.MasterOfLine | usr/lib/byobu/include/select-session.py:80-81 | a master line `<name>:<mid>(group …)<post>` captures that group whenever no group annotation starts in `<post>`, so the greedy `.+` backs off past a trailing `(attached)`; `<mid>` may hold other annotations such as `(created …)` |
| SelectSession.SatelliteOfLine | usr/lib/byobu/include/select-session.py:86 | a line `_<name>-<digits>:<mid>(<group>)` matches the satellite pattern of that group |
| SelectSession.SatelliteKill | usr/lib/byobu/include/select-session.py:88 | the kill of a line starting `_<name>-<digits>:` targets `_<name>-<digits>` |
| SelectSession.CullExample | usr/lib/byobu/include/select-session.py:65-88 | for the listing `work: 2 windows (group 5) (attached)`, `_work-1: 2 windows (group 5)`, `_work-2: 1 windows (group 6)`, only `_work-1` is killed |
| SelectSession.OtherAnnotationNotKilled | usr/lib/byobu/include/select-session.py:86 | a line ending with another annotation, such as another master's group, is not killed |
| SelectSession.AttachedNotKilled | usr/lib/byobu/include/select-session.py:86 | a satellite line ending with `(attached)` is never killed |
| SelectSession.SelectSession | usr/lib/byobu/include/select-session.py:117-177 | the script body's action is the whole-run specification: list, augment, choose, dispatch; an interrupt exits with status 0 |
| PyStr.WordsAreWords | usr/lib/byobu/include/config.py:175 | every piece `split()` returns is non-empty and has no whitespace |
| Sorting.Sort | usr/lib/byobu/include/config.py:183 | `sorted` returns an ascending permutation of its input |
| Sorting.SortDistinct | usr/lib/byobu/include/config.py:182-183 | sorting distinct names gives each name once, strictly ascending |
| Config.RecordedKeys | usr/lib/byobu/include/config.py:175-180 | recording tokens adds exactly the names the tokens carry, `#` removed |
| Config.RecordedLast | usr/lib/byobu/include/config.py:175-180 | a name's flag is that of the last token naming it: 0 after a leading `#`, 1 otherwise |
| Config.RecordedOverride | usr/lib/byobu/include/config.py:175-180 | a name the tokens mention gets the same flag whatever was recorded before |
| Config.RecordedKeeps | usr/lib/byobu/include/config.py:175-180 | a name the tokens do not mention keeps its earlier flag |
| Config.RecordedBits | usr/lib/byobu/include/config.py:176-180 | recording keeps every flag 0 or 1 |
| Config.ReadBits | usr/lib/byobu/include/config.py:168-180 | every flag `readstatus` records is 0 or 1 |
| Config.Record | usr/lib/byobu/include/config.py:175-180 | the token loop records each token's name and flag into the dictionary, and its keys are kept distinct |
| Config.SortedItems | usr/lib/byobu/include/config.py:181-186 | the items list every name of the dictionary once, in ascending order, with its flag |
| Config.ReadStatus | usr/lib/byobu/include/config.py:164-186 | a rejected file ends the program and an unbound variable raises `KeyError`; otherwise the result lists every recorded name once, sorted, with its flag |
| Config.ReadBoth | usr/lib/byobu/include/config.py:168-174 | with both files present, the user's tokens, taken from the variables bound after both files, are recorded over the shared file's |
| Config.UserFileOverrides | usr/lib/byobu/include/config.py:168-186 | a name is listed iff some file mentions it; the user's file decides the flags of the names it mentions; other names keep the shared file's flag |
| Config.GenStatusString | usr/lib/byobu/include/config.py:189-201 | the result is the template's text, or the exception: a missing or rejected shared file, an unbound variable, or `KeyError` for a token without a flag |
| Config.Emit | usr/lib/byobu/include/config.py:194-200 | the token loop yields the emitted text when every token has a flag, and `KeyError` otherwise |
| Config.EmittedNext | usr/lib/byobu/include/config.py:194-200 | each token adds ` name` when its flag is 1 and ` #name` otherwise, in template order |
| Config.EmittedWords | usr/lib/byobu/include/config.py:194-200 | splitting the generated text gives back one word per template token, in order |
| Config.WordReadBack | usr/lib/byobu/include/config.py:176-200 | reading back a written word gives its name, and its flag as 0 or 1 |
| Config.GeneratedReadsBack | usr/lib/byobu/include/config.py:174-200 | reading the generated text back with `readstatus`'s rule restores each template name's flag, as 0 or 1 |
| Config.WriteStatus | usr/lib/byobu/include/config.py:204-226 | the saved file and final exception are those of the two-pass specification: `tmux_left`, then `tmux_right`, each pass reading the user's file or else the shared one |
| Config.RewritePass | usr/lib/byobu/include/config.py:216-225 | a pass rewrites every `key=` line when the text can be generated; otherwise it keeps the lines before the first `key=` line and raises |
| Config.RewriteLine | usr/lib/byobu/include/config.py:220-225 | a `key=` line is written as `key="<text>"` or stops the pass with the exception; any other line is copied |
| Config.WrittenLines | usr/lib/byobu/include/config.py:209-225 | when both templates generate, the line count is unchanged, the `tmux_left=` and `tmux_right=` lines are replaced, and every other line is copied verbatim |
| Config.FailedPassTruncates | usr/lib/byobu/include/config.py:216-223 | when `tmux_left` cannot be generated, the file keeps only the lines before its first `tmux_left=` line and the call raises |
| Config.StatusOfDistinct | usr/lib/byobu/include/config.py:207-208 | items with distinct names give each name its item's flag |
| Config.ListedFlagsWrittenBack | usr/lib/byobu/include/config.py:181-208 | writing back the unchanged list `readstatus` produced uses exactly the flags it read |
| Config.GetEscKey | usr/lib/byobu/include/config.py:279-293 | the key is the escape-key specification's: `A` without a file or prefix line, else the character after the first `^` of the last prefix line, with a backtick read as a space |
| Config.LastPrefixWins | usr/lib/byobu/include/config.py:283-285 | a later prefix line overrides every earlier line |
| Config.OtherLineIgnored | usr/lib/byobu/include/config.py:283-285 | a line that does not start with `set -g prefix ` changes nothing |
| Config.NoPrefixLine | usr/lib/byobu/include/config.py:288-289 | without a prefix line the key is `A` |
| Config.CaretKey | usr/lib/byobu/include/config.py:290-293 | `set -g prefix ^X` gives `X`, and a backtick gives a space |
| Config.NoCaretGivesS | usr/lib/byobu/include/config.py:290 | a prefix line without `^` gives its first character, `s` |
| Config.SetEscKey | usr/lib/byobu/include/config.py:296-301 | `byobu-ctrl-a screen <key>` runs iff the key is alphabetic, and nothing runs otherwise |
| Config.Sanitize | usr/lib/byobu/include/config.py:316-329 | the field ends with at most one character and never something `int` accepts; `/` or a backslash become `A`; any other value becomes its second character (or stays whole when shorter than two), unless `int` accepts that, which gives `A` |
| Config.SanitizeSettles | usr/lib/byobu/include/config.py:316-329 | after two timer ticks the rule changes nothing more, and the field is neither `/` nor a backslash |
| Config.SlashNeedsSecondTick | usr/lib/byobu/include/config.py:318-322 | `x/` becomes `/` on one tick, and the next tick makes it `A` |
| Config.SanitizedKeyCommand | usr/lib/byobu/include/config.py:297-329 | a sanitised field is passed on as a single letter, or nothing runs |
| Config.Autolaunch | usr/lib/byobu/include/config.py:342-353 | the result is 0 or 1: 0 with the disable marker or an unreadable `.profile`, else 1 iff a `.profile` line contains `byobu-launch` or the profile.d script exists |
| Config.Handler | usr/lib/byobu/include/config.py:364-373 | help, the status toggles and the escape-key form return 100; install returns 101 iff byobu was installed and 100 otherwise; any other tag is left as it is |
| Config.Screen | usr/lib/byobu/include/config.py:366-374 | a round gives the handler's tag and runs the launcher command only for install; `isInstalled` is asked again only after install |
| Config.MainLoop | usr/lib/byobu/include/config.py:356-376 | the loop's trace is the menu-loop specification: the `isInstalled` shown at each menu and the launcher commands run |
| Config.RunStopsAtExit | usr/lib/byobu/include/config.py:362-376 | the loop shows the menu until it returns Exit and stops right there |
| Config.InstalledOnlyAfterInstall | usr/lib/byobu/include/config.py:372-374 | the next menu shows the same `isInstalled` unless the round was install, which shows the fresh `autolaunch()` |
| Config.NoInstallKeepsState | usr/lib/byobu/include/config.py:362-374 | without an install round no launcher command runs and every menu shows the first `autolaunch()` value |

## Left out

- `SelectSession.AttachSession`: the kill commands are `subprocess.Popen` calls that
  are started and never waited on. They may still be running when `os.execvp`
  replaces the process. The model lists them in order before the `exec` and says
  nothing about when they finish.
- `Config.WriteStatus`: a user status file that exists but cannot be read is not
  modelled. `None` for the user's file means missing. In the source an unreadable but
  writable file makes each pass read the shared file again. The second pass then
  keeps the shared `tmux_left=` line and drops the first pass's rewrite. The model's
  second pass reads the file the first pass wrote.
- Process plumbing: `subprocess` calls and `os.execvp` are returned values. Their exit
  statuses and outputs are not modelled. This includes the output text of
  `byobu-launcher-install` and `byobu-launcher-uninstall`.
- Output decoding through `sys.stdout.encoding`, the printed menu, `gettext`,
  `terminal_size` and `ioctl_GWINSZ`: these are terminal I/O.
- The snack widgets in `menu`, `messagebox`, `help`, `togglestatus` and the `chgesc`
  form: these are UI. A menu round comes in as the entry picked and the value
  `autolaunch()` would then report.
- `help` reading `help.tmux.txt` and replacing `<esckey>` in it: this is file reading
  and UI.
- The `chgesc` timer loop, `popWindow`, and the key set when the form closes: this
  is UI. Only the rule applied on each tick is modelled. The form's buttons are
  Apply and Cancel, so its `exit` branch is never taken and its tag is always 100.
- `reload_required`, `appendtofile`, the marker-file existence checks, and opening
  files: these are filesystem operations. Files are given as contents or `None`.
- The writestatus mode fallback to `a+` and the uncalled `f.close`: these are
  filesystem behaviour. A pass's output is the list of lines written.
- `exec` of the status files: a file is given as the variables it binds, or the
  exception it raises.
- `eval` of an answer: this is Python evaluation. It is the abstract
  `Input.evaluated`, with `None` when `eval` raises an `Exception` or gives a value
  `int` rejects.
- `SelectSession.Prompt`: an answer whose `eval` raises `SystemExit` (`exit()`,
  `quit()`) is caught by neither handler, so the script ends there without attaching
  or exec'ing anything. A `KeyboardInterrupt` raised inside `eval` exits with status 0.
  `Input.evaluated` cannot express either, so the model does not capture these ends.
- `SelectSession.MasterGroup`: the master regular expression is a per-line predicate.
  The case where `[^)]+` runs across a newline is not modelled, and neither are
  session names with regular-expression metacharacters.
- `SelectSession.IsSatellite`: only ASCII digits match `\d`. Session names and the
  captured group text are assumed to hold no regular-expression metacharacters. Both
  go into the pattern unescaped, so a group holding `(` makes `re.findall` raise
  `re.error`, which the model does not capture.
- Line splitting: both listings are given as lists of lines. `get_sessions` splits
  with `splitlines()`, which also breaks at `\r`, `\x0b`, `\x0c`, `\x1c`-`\x1e`,
  `\x85`, `\u2028` and `\u2029`. The `re.MULTILINE` patterns of `cull_zombies`
  break only at `\n`. The model does not tell these splittings apart. Lines read
  from files are different: they keep their trailing `\n`, because `readlines` and
  file iteration return them that way. `RewriteLine` copies such a line as it is, and
  `GetEscKey` on `set -g prefix ^` followed by `\n` returns `\n` instead of raising
  `IndexError`. The model takes file lines with the `\n` they carry.
- `PyStr.ParseInt`: only ASCII digits, an optional sign, surrounding whitespace and
  single underscores between digits are modelled. Other Unicode decimal digits are
  not.
- `Config.IsAlpha`: letters are ASCII only, not Unicode letters.
- `Config.ReadStatus`: flags are the integers 0 and 1. The source stores the strings
  `"0"` and `"1"` and converts them with `int()`, which gives the same numbers.
- `Config.GeneratedReadsBack`: it is stated only for names with no `#` and no
  whitespace. A hidden name containing `#` reads back without it.
- `Config.EmittedWords`: it carries the same restriction to names with no `#` and no
  whitespace.
- `Config.GetEscKey`: a keybindings file that exists but cannot be read makes `open`
  raise in the source. The model has no such case: the file is present with its
  lines, or missing, which gives `A`.
- `Config.Autolaunch`: only a `.profile` that cannot be opened gives 0. An error
  while reading the open file is not modelled.
- `Config.MainLoop`: rounds are finite. A menu reached after the last given round
  returns Exit.
- `Config.Handler` and `Config.MainLoop`: an exception raised inside a screen is not
  modelled. In the source it ends `main` with a traceback, or with status 1 for
  `error()`. The model returns the screen's normal tag instead. The cases are:
  - `togglestatus`: `readstatus` raises SystemExit or `KeyError`, and `writestatus`
    raises;
  - `help` and `chgesc`: `getesckey` raises `IndexError` on a prefix line that ends
    at its `^`;
  - `help`: the help file cannot be opened.
- The screen backend: its branches are modelled and proved unreachable, but their
  command shapes are not checked.

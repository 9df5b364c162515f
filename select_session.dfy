/** The byobu session chooser (`select-session.py`): it lists the live tmux sessions,
    hides internal ones, offers a numbered menu when the choice is ambiguous, and hands
    the terminal over to tmux, to a fresh byobu session or to a plain shell.

    Every process call is an input or an output here: the two `tmux list-sessions`
    listings are given as lines, the answers typed at the prompt as a sequence of
    `Input`s, and what the script would run and finally `exec` is returned as an
    `Action`. */
module SelectSession {
  import opened Common
  import opened PyStr

  /** The variables copied into the chosen session before attaching, in the order the
      `setenv` calls are issued (GPG_AGENT_INFO is listed twice). */
  const UpdateEnvVars: seq<string> := [
    "DISPLAY", "DBUS_SESSION_BUS_ADDRESS", "SESSION_MANAGER", "GPG_AGENT_INFO",
    "XDG_SESSION_COOKIE", "XDG_SESSION_PATH", "GNOME_KEYRING_CONTROL", "GNOME_KEYRING_PID",
    "GPG_AGENT_INFO", "SSH_ASKPASS", "SSH_AUTH_SOCK", "SSH_AGENT_PID", "WINDOWID",
    "UPSTART_JOB", "UPSTART_EVENTS", "UPSTART_SESSION", "UPSTART_INSTANCE"]

  /** Joins the backend and the session name in a menu token, `tmux____<name>`. */
  const Separator := "____"
  const NewEntry := "NEW"
  const ShellEntry := "SHELL"
  const NewLabel := "Create a new Byobu session (tmux)"

  function ShellLabel(shell: string): string {
    "Run a shell without Byobu (" + shell + ")"
  }

  /** The process environment and the two marker files of the configuration directory
      (`.reuse-session`, `.always-select`). */
  datatype Context = Context(env: map<string, string>, reuseSessions: bool, alwaysSelect: bool)

  /** `os.getenv("SHELL", "/bin/bash")`. */
  function Shell(env: map<string, string>): string {
    if "SHELL" in env then env["SHELL"] else "/bin/bash"
  }

  /** `os.getenv(v)` is a non-empty string. */
  predicate IsSet(env: map<string, string>, v: string) {
    v in env && env[v] != ""
  }

  /** One answer at the prompt: a line the user typed, together with what `eval` makes
      of it (`None` when `eval` raises or gives something `int` rejects); a read that
      raised an ordinary exception (end of input among them); or Ctrl-C. */
  datatype Input = Typed(line: string, evaluated: Option<int>) | ReadError | Interrupt

  /** What the script leaves behind: the commands it runs, in order (each an argument
      vector), before replacing itself with `argv` (whose first element is also the
      program looked up on PATH); an exit with a status; or death by an uncaught
      exception. */
  datatype Action =
    | Exec(commands: seq<seq<string>>, argv: seq<string>)
    | Exit(status: int)
    | Crash(exception: string)

  // ---------------------------------------------------------------- listing

  /** The filter of `get_sessions`: a line is shown when it is non-empty, does not start
      with `_`, and has no `-` anywhere in it. */
  predicate Visible(line: string) {
    line != "" && !("_" <= line) && Find(line, "-") == -1
  }

  /** The menu label of a listed session. */
  function Label(line: string): string {
    "tmux: " + Strip(line)
  }

  /** The token of a listed session: backend, separator, and the text before the first `:`. */
  function Token(line: string): string {
    "tmux" + Separator + Field0(line, ":")
  }

  /** The visible lines of a listing, in listing order. */
  function Kept(listing: seq<string>): seq<string> {
    if listing == [] then []
    else
      var last := listing[|listing| - 1];
      Kept(listing[..|listing| - 1]) + (if Visible(last) then [last] else [])
  }

  /** The tokens `get_sessions` returns for a listing. */
  function Tokens(listing: seq<string>): seq<string> {
    if listing == [] then []
    else
      var last := listing[|listing| - 1];
      Tokens(listing[..|listing| - 1]) + (if Visible(last) then [Token(last)] else [])
  }

  /** The labels `get_sessions` appends to the menu text for a listing. */
  function Labels(listing: seq<string>): seq<string> {
    if listing == [] then []
    else
      var last := listing[|listing| - 1];
      Labels(listing[..|listing| - 1]) + (if Visible(last) then [Label(last)] else [])
  }

  /** The menu entries after the synthetic ones are added. */
  function Entries(listing: seq<string>, alwaysSelect: bool): seq<string> {
    var listed := Tokens(listing);
    listed + (if |listed| > 1 || alwaysSelect then [NewEntry, ShellEntry] else [])
  }

  /** The menu labels after the synthetic ones are added. */
  function EntryLabels(listing: seq<string>, alwaysSelect: bool, shell: string): seq<string> {
    Labels(listing) + (if |Tokens(listing)| > 1 || alwaysSelect then [NewLabel, ShellLabel(shell)] else [])
  }

  /** `session.split("____", 2)` unpacked into a backend and a name; `None` when the
      split does not give exactly two parts and the unpacking raises `ValueError`. */
  function UnpackToken(token: string): Option<(string, string)> {
    var parts := SplitN(token, Separator, 2);
    if |parts| == 2 then Some((parts[0], parts[1])) else None
  }

  // ---------------------------------------------------------------- prompt

  /** The outcome of the selection step: a choice (-1 for none) or an interrupt. */
  datatype Selection = Choice(n: int) | Interrupted

  /** What one answer does to the prompt loop. */
  datatype Verdict = Accept(k: int) | Reject | Quit

  /** One round of the prompt loop for a menu of `count` entries. An empty answer or a
      failed read picks entry 1; a number is taken from `int`, or else from `eval`; a
      number in 1..count is accepted and any other number rejected. An answer that
      neither `int` nor `eval` turns into a number reaches the generic handler while no
      choice is set, and that handler picks entry 1. */
  function Judge(count: nat, input: Input): (v: Verdict)
    ensures v.Accept? ==> v.k == 1 || 1 <= v.k <= count
  {
    match input
    case Interrupt => Quit
    case ReadError => Accept(1)
    case Typed(line, evaluated) =>
      if line == "" then Accept(1)
      else
        var number := if ParseInt(line).Some? then ParseInt(line) else evaluated;
        match number
        case None => Accept(1)
        case Some(n) => if 1 <= n <= count then Accept(n) else Reject
  }

  /** The prompt loop with `tries` rejections used so far; an exhausted input reads as a
      failed read. */
  function Prompt(count: nat, inputs: seq<Input>, tries: nat): (s: Selection)
    requires count >= 1 && tries <= 3
    ensures s.Choice? ==> s.n == -1 || 1 <= s.n <= count
    decreases 3 - tries
  {
    if tries == 3 then Choice(-1)
    else
      var input := if inputs == [] then ReadError else inputs[0];
      var rest := if inputs == [] then [] else inputs[1..];
      match Judge(count, input)
      case Quit => Interrupted
      case Accept(k) => Choice(k)
      case Reject => Prompt(count, rest, tries + 1)
  }

  /** One step of the prompt loop read off at position `k` of the answers. */
  lemma PromptNext(count: nat, inputs: seq<Input>, k: nat, next: nat, input: Input, tries: nat)
    requires count >= 1 && tries < 3 && k <= |inputs|
    requires if k < |inputs| then input == inputs[k] && next == k + 1 else input == ReadError && next == k
    ensures Judge(count, input) == Quit ==> Prompt(count, inputs[k..], tries) == Interrupted
    ensures Judge(count, input).Accept? ==> Prompt(count, inputs[k..], tries) == Choice(Judge(count, input).k)
    ensures Judge(count, input) == Reject ==> Prompt(count, inputs[k..], tries) == Prompt(count, inputs[next..], tries + 1)
  {
    if k < |inputs| {
      assert inputs[k..][0] == inputs[k] && inputs[k..][1..] == inputs[k + 1..];
    }
  }

  /** The selection for a menu of `count` entries: the prompt when there are several,
      entry 1 when there is one, none when there are none. */
  function Selected(count: nat, inputs: seq<Input>): (s: Selection)
    ensures s.Choice? ==> s.n == -1 || 1 <= s.n <= count
  {
    if count > 1 then Prompt(count, inputs, 0)
    else if count == 1 then Choice(1)
    else Choice(-1)
  }

  // ---------------------------------------------------------------- attaching

  /** One `setenv` command for a variable of the chosen session. */
  function SetEnv(backend: string, name: string, v: string, value: string): seq<string> {
    if backend == "tmux" then ["tmux", "setenv", "-t", name, v, value]
    else ["screen", "-S", name, "-X", "setenv", v, value]
  }

  /** The variables of `vars` that are set, in order, repeats kept. */
  function SetVars(vars: seq<string>, env: map<string, string>): seq<string> {
    if vars == [] then []
    else
      var last := vars[|vars| - 1];
      SetVars(vars[..|vars| - 1], env) + (if IsSet(env, last) then [last] else [])
  }

  /** The commands `update_environment` issues for the variables `vars`. */
  function EnvCommands(backend: string, name: string, vars: seq<string>, env: map<string, string>): seq<seq<string>> {
    if vars == [] then []
    else
      var last := vars[|vars| - 1];
      EnvCommands(backend, name, vars[..|vars| - 1], env)
        + (if IsSet(env, last) then [SetEnv(backend, name, last, env[last])] else [])
  }

  /** `s` ends with `suffix`. */
  predicate EndsWith(s: string, suffix: string) {
    |suffix| <= |s| && s[|s| - |suffix|..] == suffix
  }

  /** The group annotation `(group X)` starting at index `p` of a line, as the master
      pattern captures it (`group ` and every character up to the next `)`, at least
      one); `None` when none starts there. */
  function GroupAt(line: string, p: nat): (g: Option<string>)
    requires p <= |line|
    ensures g.Some? ==> p < |line| && line[p] == '(' && "group " <= g.value && ')' !in g.value
  {
    var open := "(group ";
    if open <= line[p..] then
      var rest := line[p + |open|..];
      var q := Find(rest, ")");
      if q > 0 then
        Field0Char(rest, ')');
        assert line[p..][0] == '(';
        Some("group " + rest[..q])
      else None
    else None
  }

  /** The annotation at the largest start in `[lo, hi)`: the greedy `.+` before it backs
      off from the end of the line to the last annotation it can reach. */
  function LastGroup(line: string, lo: nat, hi: nat): Option<string>
    requires hi <= |line|
    decreases hi
  {
    if hi <= lo then None
    else if GroupAt(line, hi - 1).Some? then GroupAt(line, hi - 1)
    else LastGroup(line, lo, hi - 1)
  }

  /** The group `^<name>:.+\((group [^\)]+)\).*$` captures on one line: after `<name>:`
      at least one character, then the last group annotation of the line. */
  function MasterMatch(name: string, line: string): Option<string> {
    var prefix := name + ":";
    if prefix <= line then LastGroup(line, |prefix| + 1, |line|) else None
  }

  /** What `re.search` finds for the master pattern: the capture on the first line that
      matches. */
  function MasterGroup(name: string, listing: seq<string>): Option<string> {
    if listing == [] then None
    else if MasterMatch(name, listing[0]).Some? then MasterMatch(name, listing[0])
    else MasterGroup(name, listing[1..])
  }

  /** Number of ASCII digits at the front of `s`. */
  function DigitRun(s: string): (k: nat)
    ensures k <= |s| && forall i :: 0 <= i < k ==> IsDigit(s[i])
    ensures k < |s| ==> !IsDigit(s[k])
  {
    if |s| > 0 && IsDigit(s[0]) then 1 + DigitRun(s[1..]) else 0
  }

  /** A line matching `^_<name>-\d+:.+\(<group>\)$`: a hidden satellite of session `name`
      whose line ends with exactly the master's group annotation. */
  predicate IsSatellite(name: string, group: string, line: string) {
    var prefix := "_" + name + "-";
    && prefix <= line
    && var rest := line[|prefix|..];
       var d := DigitRun(rest);
       && 0 < d < |rest|
       && rest[d] == ':'
       && var tail := rest[d + 1..];
          var suffix := "(" + group + ")";
          |suffix| < |tail| && EndsWith(tail, suffix)
  }

  function KillCommand(line: string): seq<string> {
    ["tmux", "kill-session", "-t", Field0(line, ":")]
  }

  /** The satellite lines of `lines` for `name` and `group`, in order. */
  function Satellites(name: string, group: string, lines: seq<string>): seq<string> {
    if lines == [] then []
    else
      var last := lines[|lines| - 1];
      Satellites(name, group, lines[..|lines| - 1]) + (if IsSatellite(name, group, last) then [last] else [])
  }

  /** One kill command per satellite line, in order. */
  function Kills(name: string, group: string, lines: seq<string>): seq<seq<string>> {
    if lines == [] then []
    else
      var last := lines[|lines| - 1];
      Kills(name, group, lines[..|lines| - 1]) + (if IsSatellite(name, group, last) then [KillCommand(last)] else [])
  }

  /** The commands `cull_zombies` issues against a listing. */
  function ZombieKills(name: string, listing: seq<string>): seq<seq<string>> {
    if listing == [] then []
    else
      match MasterGroup(name, listing)
      case None => []
      case Some(group) => Kills(name, group, listing)
  }

  /** The `exec` that attaches to session `name` once environment and zombies are handled. */
  function AttachArgv(backend: string, name: string, reuse: bool): seq<string> {
    if backend == "tmux" then
      if reuse then ["tmux", "-u", "new-session", "-t", name, ";", "set-option", "destroy-unattached"]
      else ["tmux", "-u", "attach", "-t", name]
    else ["screen", "-AOxRR", name]
  }

  /** What `attach_session` does for a token; `recheck` is the second listing, the one
      `cull_zombies` reads. */
  function Attachment(token: string, ctx: Context, recheck: seq<string>): Action {
    match UnpackToken(token)
    case None => Crash("ValueError")
    case Some(parts) =>
      Exec(EnvCommands(parts.0, parts.1, UpdateEnvVars, ctx.env) + ZombieKills(parts.1, recheck),
           AttachArgv(parts.0, parts.1, ctx.reuseSessions))
  }

  /** The dispatch on the chosen entry (1-based; below 1 for none). */
  function Dispatched(entries: seq<string>, choice: int, ctx: Context, recheck: seq<string>): Action
    requires choice <= |entries|
  {
    if choice >= 1 then
      var entry := entries[choice - 1];
      if entry == NewEntry then Exec([], ["byobu", "new-session", Shell(ctx.env)])
      else if entry == ShellEntry then Exec([], [Shell(ctx.env)])
      else Attachment(entry, ctx, recheck)
    else Exec([], ["tmux"])
  }

  /** The whole run of the script. */
  function Resolution(ctx: Context, listing: seq<string>, inputs: seq<Input>, recheck: seq<string>): Action {
    var entries := Entries(listing, ctx.alwaysSelect);
    match Selected(|entries|, inputs)
    case Interrupted => Exit(0)
    case Choice(k) => Dispatched(entries, k, ctx, recheck)
  }

  // ---------------------------------------------------------------- the script

  /** The module-level state of the script: the choice and the two parallel menu lists. */
  class Resolver {
    var choice: int
    var sessions: seq<string>
    var text: seq<string>

    constructor ()
      ensures choice == -1 && sessions == [] && text == []
    {
      choice := -1;
      sessions := [];
      text := [];
    }

    /** `get_sessions`: returns the tokens of the visible lines and appends their labels
        to the menu text. */
    method GetSessions(listing: seq<string>) returns (found: seq<string>)
      modifies this`text
      ensures found == Tokens(listing)
      ensures text == old(text) + Labels(listing)
    {
      found := [];
      if |listing| > 0 {
        var i := 0;
        while i < |listing|
          invariant 0 <= i <= |listing|
          invariant found == Tokens(listing[..i])
          invariant text == old(text) + Labels(listing[..i])
        {
          var s := listing[i];
          ListingStep(listing, i);
          if Visible(s) {
            text := text + [Label(s)];
            found := found + [Token(s)];
          }
          i := i + 1;
        }
        assert listing[..i] == listing;
      }
    }

    /** Adds the NEW and SHELL entries when there is more than one session or the
        always-select marker exists. */
    method Augment(alwaysSelect: bool, shell: string)
      modifies this`sessions, this`text
      ensures var extra := |old(sessions)| > 1 || alwaysSelect;
        && sessions == old(sessions) + (if extra then [NewEntry, ShellEntry] else [])
        && text == old(text) + (if extra then [NewLabel, ShellLabel(shell)] else [])
    {
      if |sessions| > 1 || alwaysSelect {
        sessions := sessions + [NewEntry];
        text := text + [NewLabel];
        sessions := sessions + [ShellEntry];
        text := text + [ShellLabel(shell)];
      }
    }

    /** One pass of the prompt loop's body on the answer `input`: it stops on an
        interrupt or an accepted answer (with `choice` set to it) and otherwise leaves
        `choice` at -1 for the next try. */
    method Ask(count: nat, input: Input) returns (stop: bool, interrupted: bool)
      requires count >= 1 && choice == -1
      modifies this`choice
      ensures interrupted <==> Judge(count, input) == Quit
      ensures stop <==> Judge(count, input) != Reject
      ensures Judge(count, input).Accept? ==> choice == Judge(count, input).k
      ensures Judge(count, input) == Reject ==> choice == -1
    {
      stop, interrupted := true, false;
      if input.Interrupt? {
        interrupted := true;
        return;
      }
      var userInput := if input.Typed? then input.line else "";
      if userInput == "" {
        choice := 1;
        return;
      }
      var raised := false;
      var parsed := ParseInt(userInput);
      if parsed.Some? {
        choice := parsed.value;
      } else if input.evaluated.Some? {
        choice := input.evaluated.value;
      } else {
        raised := true;
      }
      if raised {
        // The generic handler only retries when a choice is already set; none ever
        // is at this point, so it always picks entry 1.
        choice := 1;
      } else if !(choice >= 1 && choice < count + 1) {
        stop := false;
        choice := -1;
      }
    }

    /** The prompt loop, or the automatic choice of a lone entry. Returns true where the
        script exits on an interrupt. */
    method Choose(inputs: seq<Input>) returns (interrupted: bool)
      requires |sessions| == |text| && choice == -1
      modifies this`choice
      ensures interrupted <==> Selected(|sessions|, inputs).Interrupted?
      ensures !interrupted ==> choice == Selected(|sessions|, inputs).n
    {
      interrupted := false;
      if |sessions| > 1 {
        var count := |text|;
        var tries := 0;
        var k := 0;
        assert inputs[k..] == inputs;
        while tries < 3
          invariant 0 <= tries <= 3 && 0 <= k <= |inputs|
          invariant choice == -1 && count == |text|
          invariant Prompt(count, inputs[k..], tries) == Prompt(count, inputs, 0)
          decreases 3 - tries
        {
          var input, next := ReadError, k;
          if k < |inputs| {
            input, next := inputs[k], k + 1;
          }
          PromptNext(count, inputs, k, next, input, tries);
          var stop;
          stop, interrupted := Ask(count, input);
          if interrupted {
            return;
          } else if stop {
            break;
          }
          k := next;
          tries := tries + 1;
        }
      } else if |sessions| == 1 {
        choice := 1;
      }
    }

    /** The dispatch on the chosen entry. */
    method Dispatch(ctx: Context, recheck: seq<string>) returns (a: Action)
      requires choice <= |sessions|
      ensures a == Dispatched(sessions, choice, ctx, recheck)
    {
      if choice >= 1 {
        if sessions[choice - 1] == NewEntry {
          return Exec([], ["byobu", "new-session", Shell(ctx.env)]);
        } else if sessions[choice - 1] == ShellEntry {
          return Exec([], [Shell(ctx.env)]);
        } else {
          a := AttachSession(sessions[choice - 1], ctx, recheck);
          return;
        }
      }
      a := Exec([], ["tmux"]);
    }
  }

  /** `update_environment`: one `setenv` per set variable, or `ValueError` from the unpacking. */
  method UpdateEnvironment(token: string, env: map<string, string>) returns (r: Outcome<seq<seq<string>>>)
    ensures UnpackToken(token).None? ==> r == Raised("ValueError")
    ensures UnpackToken(token).Some? ==>
      r == Value(EnvCommands(UnpackToken(token).value.0, UnpackToken(token).value.1, UpdateEnvVars, env))
  {
    var parts := UnpackToken(token);
    if parts.None? {
      return Raised("ValueError");
    }
    var backend, name := parts.value.0, parts.value.1;
    var commands: seq<seq<string>> := [];
    var i := 0;
    while i < |UpdateEnvVars|
      invariant 0 <= i <= |UpdateEnvVars|
      invariant commands == EnvCommands(backend, name, UpdateEnvVars[..i], env)
    {
      var v := UpdateEnvVars[i];
      assert UpdateEnvVars[..i + 1][..i] == UpdateEnvVars[..i];
      if IsSet(env, v) {
        commands := commands + [SetEnv(backend, name, v, env[v])];
      }
      i := i + 1;
    }
    assert UpdateEnvVars[..i] == UpdateEnvVars;
    r := Value(commands);
  }

  /** `cull_zombies`: the kill commands for the hidden satellites of `name` in the
      master's group. */
  method CullZombies(name: string, listing: seq<string>) returns (kills: seq<seq<string>>)
    ensures kills == ZombieKills(name, listing)
  {
    kills := [];
    if |listing| == 0 {
      return;
    }
    var master := MasterGroup(name, listing);
    if master.None? {
      return;
    }
    var group := master.value;
    var i := 0;
    while i < |listing|
      invariant 0 <= i <= |listing|
      invariant kills == Kills(name, group, listing[..i])
    {
      var s := listing[i];
      assert listing[..i + 1][..i] == listing[..i];
      if IsSatellite(name, group, s) {
        kills := kills + [KillCommand(s)];
      }
      i := i + 1;
    }
    assert listing[..i] == listing;
  }

  /** `attach_session`. */
  method AttachSession(token: string, ctx: Context, recheck: seq<string>) returns (a: Action)
    ensures a == Attachment(token, ctx, recheck)
  {
    var env := UpdateEnvironment(token, ctx.env);
    if env.Raised? {
      return Crash(env.exception);
    }
    var parts := UnpackToken(token);
    var backend, name := parts.value.0, parts.value.1;
    var kills := CullZombies(name, recheck);
    a := Exec(env.value + kills, AttachArgv(backend, name, ctx.reuseSessions));
  }

  /** The script body: list, augment, choose, dispatch; falling through to a bare `tmux`. */
  method SelectSession(ctx: Context, listing: seq<string>, inputs: seq<Input>, recheck: seq<string>) returns (a: Action)
    ensures a == Resolution(ctx, listing, inputs, recheck)
  {
    var r := new Resolver();
    var found := r.GetSessions(listing);
    r.sessions := found;
    ListingPairs(listing);
    r.Augment(ctx.alwaysSelect, Shell(ctx.env));
    assert r.sessions == Entries(listing, ctx.alwaysSelect);
    var interrupted := r.Choose(inputs);
    if interrupted {
      return Exit(0);
    }
    a := r.Dispatch(ctx, recheck);
  }

  // ---------------------------------------------------------------- properties

  /** A line is kept exactly when it is visible, and keeping distributes over
      concatenation, so kept lines stay in listing order. */
  lemma {:induction false} KeptFilter(listing: seq<string>)
    ensures forall line :: line in Kept(listing) <==> line in listing && Visible(line)
  {
    if listing != [] {
      var init := listing[..|listing| - 1];
      KeptFilter(init);
      assert listing == init + [listing[|listing| - 1]];
    }
  }

  lemma {:induction false} KeptAppend(a: seq<string>, b: seq<string>)
    ensures Kept(a + b) == Kept(a) + Kept(b)
  {
    if b == [] {
      assert a + b == a;
    } else {
      var init := b[..|b| - 1];
      KeptAppend(a, init);
      assert (a + b)[..|a + b| - 1] == a + init;
    }
  }

  /** The visibility filter in plain terms: `find("-") == -1` means no `-` anywhere in
      the line, not only in the name. */
  lemma VisibleMeans(line: string)
    ensures Visible(line) <==> line != [] && line[0] != '_' && '-' !in line
  {
    FindChar(line, '-');
  }

  /** Each kept line gives one token and one label, so the two lists stay equal length. */
  lemma {:induction false} ListingPairs(listing: seq<string>)
    ensures |Tokens(listing)| == |Labels(listing)| == |Kept(listing)|
  {
    if listing != [] {
      ListingPairs(listing[..|listing| - 1]);
    }
  }

  /** The token and the label at position `i` both come from the `i`-th kept line. */
  lemma ListingAt(listing: seq<string>, i: int)
    requires 0 <= i < |Kept(listing)|
    ensures |Tokens(listing)| == |Labels(listing)| == |Kept(listing)|
    ensures Tokens(listing)[i] == Token(Kept(listing)[i]) && Labels(listing)[i] == Label(Kept(listing)[i])
  {
    ListingPaired(listing);
  }

  /** `tokens` and `labels` hold the token and the label of each line of `kept`, in order. */
  predicate Paired(tokens: seq<string>, labels: seq<string>, kept: seq<string>) {
    TokensOf(tokens, kept) && LabelsOf(labels, kept)
  }

  predicate TokensOf(tokens: seq<string>, kept: seq<string>) {
    |tokens| == |kept| && forall i :: 0 <= i < |kept| ==> tokens[i] == Token(kept[i])
  }

  predicate LabelsOf(labels: seq<string>, kept: seq<string>) {
    |labels| == |kept| && forall i :: 0 <= i < |kept| ==> labels[i] == Label(kept[i])
  }

  lemma PairedAppend(t1: seq<string>, l1: seq<string>, k1: seq<string>, t2: seq<string>, l2: seq<string>, k2: seq<string>)
    requires Paired(t1, l1, k1) && Paired(t2, l2, k2)
    ensures Paired(t1 + t2, l1 + l2, k1 + k2)
  {
    TokensAppend(t1, k1, t2, k2);
    LabelsAppend(l1, k1, l2, k2);
  }

  lemma TokensAppend(t1: seq<string>, k1: seq<string>, t2: seq<string>, k2: seq<string>)
    requires TokensOf(t1, k1) && TokensOf(t2, k2)
    ensures TokensOf(t1 + t2, k1 + k2)
  {
    forall i | |k1| <= i < |k1 + k2| ensures (t1 + t2)[i] == Token((k1 + k2)[i]) {
      assert (t1 + t2)[i] == t2[i - |k1|] && (k1 + k2)[i] == k2[i - |k1|];
    }
  }

  lemma LabelsAppend(l1: seq<string>, k1: seq<string>, l2: seq<string>, k2: seq<string>)
    requires LabelsOf(l1, k1) && LabelsOf(l2, k2)
    ensures LabelsOf(l1 + l2, k1 + k2)
  {
    forall i | |k1| <= i < |k1 + k2| ensures (l1 + l2)[i] == Label((k1 + k2)[i]) {
      assert (l1 + l2)[i] == l2[i - |k1|] && (k1 + k2)[i] == k2[i - |k1|];
    }
  }

  lemma {:induction false} ListingPaired(listing: seq<string>)
    ensures Paired(Tokens(listing), Labels(listing), Kept(listing))
  {
    if listing != [] {
      var init, last := listing[..|listing| - 1], listing[|listing| - 1];
      ListingPaired(init);
      if Visible(last) {
        PairedAppend(Tokens(init), Labels(init), Kept(init), [Token(last)], [Label(last)], [last]);
      } else {
        assert Tokens(listing) == Tokens(init) + [] && Labels(listing) == Labels(init) + [] && Kept(listing) == Kept(init) + [];
      }
    }
  }

  /** `split("____", 2)` on a token gives back `("tmux", name)` exactly when the name has
      no `____`; otherwise the unpacking raises. */
  lemma TokenRoundTrip(name: string)
    ensures UnpackToken("tmux____" + name) == if Contains(name, Separator) then None else Some(("tmux", name))
  {
    var s := "tmux____" + name;
    assert s[4..8] == Separator;
    assert Occurs(s, Separator, 4);
    forall i | 0 <= i < 4 ensures !Occurs(s, Separator, i) {
      assert s[i] != '_';
    }
    assert Find(s, Separator) == 4;
    assert s[8..] == name && s[..4] == "tmux";
    assert SplitN(s, Separator, 2) == [s[..4]] + SplitN(name, Separator, 1);
  }

  /** Every listed entry unpacks to the tmux backend, or raises; the screen branches are
      never taken. */
  lemma RealEntriesAreTmux(listing: seq<string>, i: int)
    requires 0 <= i < |Tokens(listing)|
    ensures UnpackToken(Tokens(listing)[i]).Some? ==> UnpackToken(Tokens(listing)[i]).value.0 == "tmux"
    ensures Tokens(listing)[i] != NewEntry && Tokens(listing)[i] != ShellEntry
  {
    ListingPairs(listing);
    ListingAt(listing, i);
    var name := Field0(Kept(listing)[i], ":");
    TokenText(Kept(listing)[i]);
    TokenRoundTrip(name);
    assert Tokens(listing)[i][..4] == "tmux";
  }

  lemma TokenText(line: string)
    ensures Token(line) == "tmux____" + Field0(line, ":")
  {
  }

  /** NEW and then SHELL follow the listed sessions exactly when there is more than one
      listed session or the always-select marker is set; they never duplicate a listed entry. */
  lemma Augmentation(listing: seq<string>, alwaysSelect: bool)
    ensures var listed := Tokens(listing); var e := Entries(listing, alwaysSelect);
      && e[..|listed|] == listed
      && (|listed| > 1 || alwaysSelect <==> |e| == |listed| + 2)
      && (|e| == |listed| + 2 ==> e[|listed|] == NewEntry && e[|listed| + 1] == ShellEntry)
      && (|e| == |listed| ==> NewEntry !in e && ShellEntry !in e)
  {
    var listed := Tokens(listing);
    forall i | 0 <= i < |listed| ensures listed[i] != NewEntry && listed[i] != ShellEntry {
      RealEntriesAreTmux(listing, i);
    }
  }

  /** With neither several sessions nor the marker, no prompt happens: a lone session is
      attached whatever the input, and an empty listing falls through to bare `tmux`. */
  lemma NoPromptWithoutChoice(ctx: Context, listing: seq<string>, inputs: seq<Input>, recheck: seq<string>)
    requires |Tokens(listing)| <= 1 && !ctx.alwaysSelect
    ensures |Tokens(listing)| == 1 ==>
      Resolution(ctx, listing, inputs, recheck) == Attachment(Tokens(listing)[0], ctx, recheck)
    ensures |Tokens(listing)| == 0 ==> Resolution(ctx, listing, inputs, recheck) == Exec([], ["tmux"])
  {
    if |Tokens(listing)| == 1 {
      RealEntriesAreTmux(listing, 0);
    }
  }

  /** An empty answer, a failed read, or running out of input picks entry 1. */
  lemma EmptyAnswerPicksFirst(count: nat, inputs: seq<Input>, tries: nat)
    requires count >= 1 && tries < 3
    requires inputs == [] || inputs[0] == ReadError || (inputs[0].Typed? && inputs[0].line == "")
    ensures Prompt(count, inputs, tries) == Choice(1)
  {
  }

  /** A number in range typed at the prompt is the choice. */
  lemma InRangeAccepted(count: nat, line: string, evaluated: Option<int>, rest: seq<Input>, tries: nat)
    requires count >= 1 && tries < 3 && line != ""
    requires ParseInt(line).Some? && 1 <= ParseInt(line).value <= count
    ensures Prompt(count, [Typed(line, evaluated)] + rest, tries) == Choice(ParseInt(line).value)
  {
  }

  /** An answer `int` rejects but `eval` turns into a number in range is the choice. */
  lemma EvaluatedInRangeAccepted(count: nat, line: string, n: int, rest: seq<Input>, tries: nat)
    requires count >= 1 && tries < 3 && line != "" && ParseInt(line).None? && 1 <= n <= count
    ensures Prompt(count, [Typed(line, Some(n))] + rest, tries) == Choice(n)
  {
  }

  /** Typing the number printed in front of entry `k` selects entry `k`. */
  lemma ShownNumberSelects(count: nat, k: nat, evaluated: Option<int>, rest: seq<Input>)
    requires 1 <= k <= count
    ensures Prompt(count, [Typed(Decimal(k), evaluated)] + rest, 0) == Choice(k)
  {
    ParseDecimal(k);
  }

  /** An answer that is neither an integer nor something `eval` turns into one picks
      entry 1 instead of using up a try: the retry after the generic handler is never
      reached. */
  lemma UnparseablePicksFirst(count: nat, line: string, rest: seq<Input>, tries: nat)
    requires count >= 1 && tries < 3 && line != "" && ParseInt(line).None?
    ensures Prompt(count, [Typed(line, None)] + rest, tries) == Choice(1)
  {
  }

  /** A rejected answer uses one try and the prompt goes on with the next answer. */
  lemma RejectUsesTry(count: nat, input: Input, rest: seq<Input>, tries: nat)
    requires count >= 1 && tries < 3 && Judge(count, input) == Reject
    ensures Prompt(count, [input] + rest, tries) == Prompt(count, rest, tries + 1)
  {
    assert ([input] + rest)[1..] == rest;
  }

  /** A rejected answer is a number out of range. */
  lemma RejectedMeansOutOfRange(count: nat, input: Input)
    requires Judge(count, input) == Reject
    ensures input.Typed? && input.line != ""
    ensures var n := if ParseInt(input.line).Some? then ParseInt(input.line) else input.evaluated;
      n.Some? && !(1 <= n.value <= count)
  {
  }

  /** Three rejected answers leave no choice, whatever follows. */
  lemma ThreeRejections(count: nat, inputs: seq<Input>)
    requires count >= 1 && |inputs| >= 3
    requires forall i :: 0 <= i < 3 ==> Judge(count, inputs[i]) == Reject
    ensures Prompt(count, inputs, 0) == Choice(-1)
  {
    assert inputs[1..][0] == inputs[1];
    assert inputs[1..][1..][0] == inputs[2];
  }

  /** "99", "abc", "2" on a three-entry menu: 99 uses a try, "abc" is not a number and
      `eval` fails on it, so entry 1 is chosen before "2" is read. */
  lemma AbcPicksFirst()
    ensures Prompt(3, [Typed("99", None), Typed("abc", None), Typed("2", None)], 0) == Choice(1)
  {
    var rest := [Typed("abc", None)] + [Typed("2", None)];
    assert [Typed("99", None), Typed("abc", None), Typed("2", None)] == [Typed("99", None)] + rest;
    NinetyNine();
    RejectUsesTry(3, Typed("99", None), rest, 0);
    AbcIsNoNumber();
    UnparseablePicksFirst(3, "abc", [Typed("2", None)], 1);
  }

  lemma NinetyNine()
    ensures Judge(3, Typed("99", None)) == Reject
  {
    NinetyNineParses();
  }

  lemma NinetyNineParses()
    ensures ParseInt("99") == Some(99)
  {
    assert Decimal(9) == "9";
    assert Decimal(99) == "99";
    ParseDecimal(99);
  }

  lemma AbcIsNoNumber()
    ensures ParseInt("abc").None?
  {
    assert LeadingSpaces("abc") == 0;
    assert TrailingSpaces("abc") == 0;
    assert Strip("abc") == "abc";
    assert !IsDigit("abc"[0]);
  }

  /** However the last entry of an augmented menu is chosen, the shell runs and no tmux
      at all. */
  lemma ShellEntryRunsShell(ctx: Context, listing: seq<string>, inputs: seq<Input>, recheck: seq<string>)
    requires |Tokens(listing)| > 1 || ctx.alwaysSelect
    requires Selected(|Entries(listing, ctx.alwaysSelect)|, inputs) == Choice(|Entries(listing, ctx.alwaysSelect)|)
    ensures Resolution(ctx, listing, inputs, recheck) == Exec([], [Shell(ctx.env)])
  {
    Augmentation(listing, ctx.alwaysSelect);
  }

  /** However the entry before it is chosen, a new byobu session starts with the shell. */
  lemma NewEntryStartsSession(ctx: Context, listing: seq<string>, inputs: seq<Input>, recheck: seq<string>)
    requires |Tokens(listing)| > 1 || ctx.alwaysSelect
    requires Selected(|Entries(listing, ctx.alwaysSelect)|, inputs) == Choice(|Entries(listing, ctx.alwaysSelect)| - 1)
    ensures Resolution(ctx, listing, inputs, recheck) == Exec([], ["byobu", "new-session", Shell(ctx.env)])
  {
    Augmentation(listing, ctx.alwaysSelect);
  }

  /** Choosing a listed session whose name has no `____` pushes the environment, kills the
      zombies of the second listing, and attaches: a new grouped client with the reuse
      marker, a plain attach without. A name with `____` makes the unpacking raise first. */
  lemma AttachRealSession(ctx: Context, listing: seq<string>, inputs: seq<Input>, recheck: seq<string>, k: int)
    requires Selected(|Entries(listing, ctx.alwaysSelect)|, inputs) == Choice(k)
    requires 1 <= k <= |Kept(listing)|
    ensures var name := Field0(Kept(listing)[k - 1], ":");
      Resolution(ctx, listing, inputs, recheck) ==
        if Contains(name, Separator) then Crash("ValueError")
        else Exec(EnvCommands("tmux", name, UpdateEnvVars, ctx.env) + ZombieKills(name, recheck),
                  if ctx.reuseSessions
                  then ["tmux", "-u", "new-session", "-t", name, ";", "set-option", "destroy-unattached"]
                  else ["tmux", "-u", "attach", "-t", name])
  {
    ListingAt(listing, k - 1);
    Augmentation(listing, ctx.alwaysSelect);
    RealEntriesAreTmux(listing, k - 1);
    var name := Field0(Kept(listing)[k - 1], ":");
    TokenText(Kept(listing)[k - 1]);
    TokenRoundTrip(name);
  }

  /** The variables that are set, in their listed order, repeats kept. */
  lemma {:induction false} SetVarsCount(vars: seq<string>, env: map<string, string>, v: string)
    ensures multiset(SetVars(vars, env))[v] == if IsSet(env, v) then multiset(vars)[v] else 0
  {
    if vars != [] {
      var init := vars[..|vars| - 1];
      SetVarsCount(init, env, v);
      assert vars == init + [vars[|vars| - 1]];
    }
  }

  /** One command per set variable, in list order. */
  lemma {:induction false} EnvCommandsMatch(backend: string, name: string, vars: seq<string>, env: map<string, string>)
    ensures |EnvCommands(backend, name, vars, env)| == |SetVars(vars, env)|
    ensures forall i :: 0 <= i < |SetVars(vars, env)| ==>
      var v := SetVars(vars, env)[i];
      IsSet(env, v) && EnvCommands(backend, name, vars, env)[i] == SetEnv(backend, name, v, env[v])
  {
    if vars != [] {
      EnvCommandsMatch(backend, name, vars[..|vars| - 1], env);
    }
  }

  /** GPG_AGENT_INFO appears twice in the list of variables to update. */
  lemma GpgAgentInfoListedTwice()
    ensures multiset(UpdateEnvVars)["GPG_AGENT_INFO"] == 2
  {
    var gpg := "GPG_AGENT_INFO";
    var a, b := UpdateEnvVars[..9], UpdateEnvVars[9..];
    assert UpdateEnvVars == a + b;
    FirstNineHoldGpgTwice();
    assert gpg !in b;
  }

  lemma FirstNineHoldGpgTwice()
    ensures multiset(UpdateEnvVars[..9])["GPG_AGENT_INFO"] == 2
  {
    var gpg := "GPG_AGENT_INFO";
    var a, b := UpdateEnvVars[..3], UpdateEnvVars[4..8];
    assert UpdateEnvVars[..9] == a + [gpg] + b + [gpg];
    assert gpg !in a && gpg !in b;
  }

  /** GPG_AGENT_INFO is pushed twice when it is set, and not at all otherwise. */
  lemma GpgAgentInfoTwice(env: map<string, string>)
    ensures multiset(SetVars(UpdateEnvVars, env))["GPG_AGENT_INFO"] == if IsSet(env, "GPG_AGENT_INFO") then 2 else 0
  {
    SetVarsCount(UpdateEnvVars, env, "GPG_AGENT_INFO");
    GpgAgentInfoListedTwice();
  }

  /** An unset or empty variable is never pushed. */
  lemma UnsetNeverPushed(vars: seq<string>, env: map<string, string>, v: string)
    requires !IsSet(env, v)
    ensures v !in SetVars(vars, env)
  {
    SetVarsCount(vars, env, v);
    assert v !in multiset(SetVars(vars, env));
  }

  /** An empty listing or a listing without a master line gives no kill at all. */
  lemma NoMasterNoKills(name: string, listing: seq<string>)
    requires listing == [] || MasterGroup(name, listing).None?
    ensures ZombieKills(name, listing) == []
  {
  }

  /** One kill per satellite line, in order, each naming `_<name>-<digits>`. */
  lemma KillsMatch(name: string, group: string, lines: seq<string>)
    requires ':' !in name
    ensures |Kills(name, group, lines)| == |Satellites(name, group, lines)|
    ensures forall i :: 0 <= i < |Satellites(name, group, lines)| ==>
      var line := Satellites(name, group, lines)[i];
      IsSatellite(name, group, line) && line in lines && KillsSatellite(name, Kills(name, group, lines)[i])
  {
    var sats, kills := Satellites(name, group, lines), Kills(name, group, lines);
    KillsOfSatellites(name, group, lines);
    SatellitesListed(name, group, lines);
    forall i | 0 <= i < |sats| ensures KillsSatellite(name, kills[i]) {
      SatelliteTarget(name, group, sats[i]);
    }
  }

  /** The satellites are exactly the listing lines matching the satellite pattern. */
  lemma {:induction false} SatellitesComplete(name: string, group: string, lines: seq<string>)
    ensures forall line :: line in Satellites(name, group, lines) <==> line in lines && IsSatellite(name, group, line)
  {
    if lines != [] {
      var init, last := lines[..|lines| - 1], lines[|lines| - 1];
      SatellitesComplete(name, group, init);
      assert lines == init + [last];
    }
  }

  /** Once a master line is found, every satellite line of its group is killed. */
  lemma EveryZombieKilled(name: string, listing: seq<string>, group: string, line: string)
    requires MasterGroup(name, listing) == Some(group)
    requires line in listing && IsSatellite(name, group, line)
    ensures KillCommand(line) in ZombieKills(name, listing)
  {
    SatellitesComplete(name, group, listing);
    KillsOfSatellites(name, group, listing);
    var sats := Satellites(name, group, listing);
    var i :| 0 <= i < |sats| && sats[i] == line;
    assert Kills(name, group, listing)[i] == KillCommand(line);
  }

  /** A master, a satellite of its group and a line that is no satellite of it: only
      the satellite is killed. */
  lemma {:induction false} CullOneSatellite(name: string, group: string, master: string, idle: string, other: string)
    requires MasterGroup(name, [master, idle, other]) == Some(group)
    requires !IsSatellite(name, group, master) && IsSatellite(name, group, idle) && !IsSatellite(name, group, other)
    ensures ZombieKills(name, [master, idle, other]) == [KillCommand(idle)]
  {
    var listing := [master, idle, other];
    assert [master, idle][..1] == [master] && [master][..0] == [];
    assert Kills(name, group, [master]) == [];
    assert Kills(name, group, [master, idle]) == [KillCommand(idle)];
    assert listing[..2] == [master, idle];
  }

  /** An annotation `(g)` at index `|pre|` is captured as `g`. */
  lemma GroupAtAnnotation(pre: string, g: string, post: string)
    requires "group " <= g && |g| > 6 && ')' !in g
    ensures GroupAt(pre + "(" + g + ")" + post, |pre|) == Some(g)
  {
    var line := pre + "(" + g + ")" + post;
    assert line[|pre|..] == "(" + g + ")" + post;
    assert "(group " <= line[|pre|..] by {
      assert ("(" + g + ")" + post)[..7] == "(" + g[..6];
    }
    var rest := line[|pre| + 7..];
    assert rest == g[6..] + ")" + post;
    Field0Char(rest, ')');
    var f := Field0(rest, ")");
    assert ')' !in g[6..];
    FieldBeforeChar(g[6..], ')', post);
    assert "group " + rest[..Find(rest, ")")] == g;
  }

  /** The text before the first `c` of `a + [c] + b`, when `a` holds no `c`. */
  lemma FieldBeforeChar(a: string, c: char, b: string)
    requires c !in a
    ensures Find(a + [c] + b, [c]) == |a|
  {
    var s := a + [c] + b;
    FindChar(s, c);
    var r := Find(s, [c]);
    assert s[|a|..|a| + 1] == [c];
    assert Occurs(s, [c], |a|);
    assert forall j :: 0 <= j < |a| ==> s[j] == a[j];
  }

  /** No annotation starts where there is no opening parenthesis. */
  lemma NoGroupWithoutOpen(line: string, q: nat)
    requires q < |line| && line[q] != '('
    ensures GroupAt(line, q).None?
  {
    assert line[q..][0] == line[q];
  }

  /** Positions where no annotation starts do not change the last annotation. */
  lemma {:induction false} LastGroupSkip(line: string, lo: nat, p: nat, hi: nat)
    requires p <= hi <= |line|
    requires forall q :: p <= q < hi ==> GroupAt(line, q).None?
    ensures LastGroup(line, lo, hi) == LastGroup(line, lo, p)
    decreases hi
  {
    if hi > p && hi > lo {
      LastGroupSkip(line, lo, p, hi - 1);
    }
  }

  /** A master line `<name>:<mid>(<g>)<post>` captures `g` when no annotation starts in
      `post`: the greedy `.+` backs off past whatever follows the group. */
  lemma MasterOfLine(name: string, mid: string, g: string, post: string)
    requires |mid| >= 1 && '(' !in g && ')' !in g && "group " <= g && |g| > 6
    requires forall k :: 0 <= k <= |post| ==> !("(group " <= post[k..])
    ensures MasterMatch(name, name + ":" + mid + "(" + g + ")" + post) == Some(g)
  {
    var pre := name + ":" + mid;
    var line := pre + "(" + g + ")" + post;
    assert line == name + ":" + mid + "(" + g + ")" + post;
    assert name + ":" <= line by { assert line[..|name| + 1] == name + ":"; }
    var end := |pre| + |g| + 2;
    forall q | |pre| + 1 <= q < |line| ensures GroupAt(line, q).None? {
      if q < end - 1 {
        assert line[q] == g[q - |pre| - 1];
        NoGroupWithoutOpen(line, q);
      } else if q == end - 1 {
        NoGroupWithoutOpen(line, q);
      } else {
        assert line[q..] == post[q - end..];
      }
    }
    LastGroupSkip(line, |name| + 2, |pre| + 1, |line|);
    GroupAtAnnotation(pre, g, post);
  }

  /** No annotation starts anywhere in a text whose every `(` is followed by something
      other than `g`. */
  lemma NoGroupIn(post: string)
    requires forall k :: 0 <= k < |post| && post[k] == '(' ==> k + 1 < |post| && post[k + 1] != 'g'
    ensures forall k :: 0 <= k <= |post| ==> !("(group " <= post[k..])
  {
    forall k | 0 <= k <= |post| ensures !("(group " <= post[k..]) {
      if k < |post| && post[k] == '(' {
        assert post[k..][1] == post[k + 1];
      } else if k < |post| {
        assert post[k..][0] == post[k];
      }
    }
  }

  /** The leading digits of `d + [c] + rest` are `d` when `c` is no digit. */
  lemma {:induction false} DigitRunOf(d: string, c: char, rest: string)
    requires (forall j :: 0 <= j < |d| ==> IsDigit(d[j])) && !IsDigit(c)
    ensures DigitRun(d + [c] + rest) == |d|
  {
    if d != [] {
      DigitRunOf(d[1..], c, rest);
      assert (d + [c] + rest)[1..] == d[1..] + [c] + rest;
    }
  }

  /** A line `_<name>-<d>:<mid>(<g>)` is a satellite of group `g`. */
  lemma SatelliteOfLine(name: string, d: string, mid: string, g: string)
    requires 0 < |d| && (forall j :: 0 <= j < |d| ==> IsDigit(d[j])) && |mid| >= 1
    ensures IsSatellite(name, g, "_" + name + "-" + d + ":" + mid + "(" + g + ")")
  {
    var tail := mid + "(" + g + ")";
    assert EndsWith(tail, "(" + g + ")") by {
      assert tail[|mid|..] == "(" + g + ")";
    }
    SatelliteParts(name, g, d, tail);
    assert "_" + name + "-" + d + ":" + mid + "(" + g + ")" == ("_" + name + "-") + (d + [':'] + tail);
  }

  lemma SatelliteParts(name: string, g: string, d: string, tail: string)
    requires 0 < |d| && (forall j :: 0 <= j < |d| ==> IsDigit(d[j]))
    requires |"(" + g + ")"| < |tail| && EndsWith(tail, "(" + g + ")")
    ensures IsSatellite(name, g, ("_" + name + "-") + (d + [':'] + tail))
  {
    var prefix := "_" + name + "-";
    var rest := d + [':'] + tail;
    var line := prefix + rest;
    assert line[..|prefix|] == prefix;
    assert line[|prefix|..] == rest;
    assert !IsDigit(':');
    DigitRunOf(d, ':', tail);
    assert rest[|d|] == ':';
    assert rest[|d| + 1..] == tail;
  }

  /** The kill for a line starting `_<name>-<d>:` names `_<name>-<d>`. */
  lemma SatelliteKill(name: string, d: string, line: string)
    requires ':' !in name && ':' !in d && "_" + name + "-" + d + ":" <= line
    ensures KillCommand(line) == ["tmux", "kill-session", "-t", "_" + name + "-" + d]
  {
    var head := "_" + name + "-" + d;
    assert ':' !in head by {
      forall j | 0 <= j < |head| ensures head[j] != ':' {
        if j >= |name| + 2 { assert head[j] == d[j - |name| - 2]; }
        else if 0 < j < |name| + 1 { assert head[j] == name[j - 1]; }
      }
    }
    var rest := line[|head| + 1..];
    assert line == head + [':'] + rest;
    FieldBeforeChar(head, ':', rest);
    assert line[..|head|] == head;
  }

  /** An attached master in group 5 with one idle satellite in its group and one in
      group 6: only `_work-1` is killed. */
  lemma CullExample(master: string, idle: string, other: string)
    requires master == "work: 2 windows (group 5) (attached)"
    requires idle == "_work-1: 2 windows (group 5)" && other == "_work-2: 1 windows (group 6)"
    ensures ZombieKills("work", [master, idle, other]) == [["tmux", "kill-session", "-t", "_work-1"]]
  {
    ExampleMaster(master, [idle, other]);
    ExampleIdle(idle);
    ExampleIdleKill(idle);
    ExampleOther(other);
    CullOneSatellite("work", "group 5", master, idle, other);
  }

  lemma ExampleMaster(master: string, rest: seq<string>)
    requires master == "work: 2 windows (group 5) (attached)"
    ensures MasterGroup("work", [master] + rest) == Some("group 5")
    ensures !IsSatellite("work", "group 5", master)
  {
    ExampleMasterMatch(master);
    assert ([master] + rest)[0] == master;
    assert master[0] != '_';
  }

  lemma ExampleMasterMatch(master: string)
    requires master == "work: 2 windows (group 5) (attached)"
    ensures MasterMatch("work", master) == Some("group 5")
  {
    ExampleMasterText(master, "work", " 2 windows ", "group 5", " (attached)");
  }

  lemma ExampleMasterText(master: string, name: string, mid: string, g: string, post: string)
    requires master == "work: 2 windows (group 5) (attached)"
    requires name == "work" && mid == " 2 windows " && g == "group 5" && post == " (attached)"
    ensures MasterMatch(name, master) == Some(g)
  {
    ExampleAttached(post);
    ExampleMasterSplits(master, name, mid, g, post);
    MasterOfLine(name, mid, g, post);
  }

  lemma ExampleMasterSplits(master: string, name: string, mid: string, g: string, post: string)
    requires master == "work: 2 windows (group 5) (attached)"
    requires name == "work" && mid == " 2 windows " && g == "group 5" && post == " (attached)"
    ensures master == name + ":" + mid + "(" + g + ")" + post
  {
  }

  lemma ExampleAttached(post: string)
    requires post == " (attached)"
    ensures forall k :: 0 <= k <= |post| ==> !("(group " <= post[k..])
  {
    forall k | 0 <= k < |post| && post[k] == '(' ensures k + 1 < |post| && post[k + 1] != 'g' {
      assert k == 1;
    }
    NoGroupIn(post);
  }

  lemma ExampleIdle(idle: string)
    requires idle == "_work-1: 2 windows (group 5)"
    ensures IsSatellite("work", "group 5", idle)
  {
    assert idle == "_" + "work" + "-" + "1" + ":" + " 2 windows " + "(" + "group 5" + ")";
    SatelliteOfLine("work", "1", " 2 windows ", "group 5");
  }

  lemma ExampleIdleKill(idle: string)
    requires idle == "_work-1: 2 windows (group 5)"
    ensures KillCommand(idle) == ["tmux", "kill-session", "-t", "_work-1"]
  {
    assert "_" + "work" + "-" + "1" + ":" == "_work-1:" && "_work-1:" <= idle;
    SatelliteKill("work", "1", idle);
    assert "_" + "work" + "-" + "1" == "_work-1";
  }

  lemma ExampleOther(other: string)
    requires other == "_work-2: 1 windows (group 6)"
    ensures !IsSatellite("work", "group 5", other)
  {
    assert other[|other| - 9..] == "(group 6)";
    OtherAnnotationNotKilled("work", "group 5", "group 6", other);
  }

  /** `kill` is `tmux kill-session -t _<name>-<digits>`. */
  ghost predicate KillsSatellite(name: string, kill: seq<string>) {
    exists d :: 0 < |d| && (forall j :: 0 <= j < |d| ==> IsDigit(d[j]))
      && kill == ["tmux", "kill-session", "-t", "_" + name + "-" + d]
  }

  /** `kills` holds the kill command of each line of `sats`, in order. */
  predicate KillsEach(kills: seq<seq<string>>, sats: seq<string>) {
    |kills| == |sats| && forall i :: 0 <= i < |sats| ==> kills[i] == KillCommand(sats[i])
  }

  lemma KillsEachAppend(k1: seq<seq<string>>, s1: seq<string>, k2: seq<seq<string>>, s2: seq<string>)
    requires KillsEach(k1, s1) && KillsEach(k2, s2)
    ensures KillsEach(k1 + k2, s1 + s2)
  {
    forall i | 0 <= i < |s1 + s2| ensures (k1 + k2)[i] == KillCommand((s1 + s2)[i]) {
      if i >= |s1| { assert (k1 + k2)[i] == k2[i - |s1|] && (s1 + s2)[i] == s2[i - |s1|]; }
    }
  }

  lemma {:induction false} KillsOfSatellites(name: string, group: string, lines: seq<string>)
    ensures KillsEach(Kills(name, group, lines), Satellites(name, group, lines))
  {
    if lines != [] {
      var init, last := lines[..|lines| - 1], lines[|lines| - 1];
      KillsOfSatellites(name, group, init);
      if IsSatellite(name, group, last) {
        KillsEachAppend(Kills(name, group, init), Satellites(name, group, init), [KillCommand(last)], [last]);
      } else {
        assert Kills(name, group, lines) == Kills(name, group, init) + [];
        assert Satellites(name, group, lines) == Satellites(name, group, init) + [];
      }
    }
  }

  /** Reading one more listing line adds its token and label when it is visible. */
  lemma ListingStep(listing: seq<string>, i: nat)
    requires i < |listing|
    ensures Tokens(listing[..i + 1]) == Tokens(listing[..i]) + (if Visible(listing[i]) then [Token(listing[i])] else [])
    ensures Labels(listing[..i + 1]) == Labels(listing[..i]) + (if Visible(listing[i]) then [Label(listing[i])] else [])
  {
    assert listing[..i + 1][..i] == listing[..i];
  }

  /** Every line of `sats` is a satellite line of `lines`. */
  predicate SatellitesFrom(name: string, group: string, sats: seq<string>, lines: seq<string>) {
    forall i :: 0 <= i < |sats| ==> IsSatellite(name, group, sats[i]) && sats[i] in lines
  }

  lemma {:induction false} SatellitesListed(name: string, group: string, lines: seq<string>)
    ensures SatellitesFrom(name, group, Satellites(name, group, lines), lines)
  {
    if lines != [] {
      var init, last := lines[..|lines| - 1], lines[|lines| - 1];
      SatellitesListed(name, group, init);
      var before := Satellites(name, group, init);
      var sats := Satellites(name, group, lines);
      forall i | 0 <= i < |sats| ensures IsSatellite(name, group, sats[i]) && sats[i] in lines {
        if i < |before| {
          assert sats[i] == before[i];
          assert before[i] in init;
        } else {
          assert sats[i] == last;
        }
      }
    }
  }

  /** The session a satellite line names. */
  lemma SatelliteTarget(name: string, group: string, line: string)
    requires ':' !in name && IsSatellite(name, group, line)
    ensures exists d :: (0 < |d| && (forall j :: 0 <= j < |d| ==> IsDigit(d[j]))
      && Field0(line, ":") == "_" + name + "-" + d)
  {
    var prefix := "_" + name + "-";
    var rest := line[|prefix|..];
    var d := rest[..DigitRun(rest)];
    assert ':' !in d by {
      forall j | 0 <= j < |d| ensures d[j] != ':' { assert IsDigit(d[j]); }
    }
    assert prefix + d + ":" <= line by {
      assert line[..|prefix|] == prefix;
      assert line[|prefix|..|prefix| + |d|] == d;
      assert line[|prefix| + |d|] == ':';
      assert line[..|prefix| + |d| + 1] == line[..|prefix|] + line[|prefix|..|prefix| + |d|] + [':'];
    }
    SatelliteKill(name, d, line);
    assert Field0(line, ":") == KillCommand(line)[3] == "_" + name + "-" + d;
    assert 0 < |d| && forall j :: 0 <= j < |d| ==> IsDigit(d[j]);
  }

  /** Two parenthesised annotations without parentheses inside that both end a line are
      the same annotation. */
  lemma SameClosingAnnotation(line: string, g: string, h: string)
    requires '(' !in g && ')' !in g && '(' !in h && ')' !in h
    requires EndsWith(line, "(" + g + ")") && EndsWith(line, "(" + h + ")")
    ensures g == h
  {
    var sg, sh := "(" + g + ")", "(" + h + ")";
    var n := if |sg| <= |sh| then |sg| else |sh|;
    assert line[|line| - n..] == sg[|sg| - n..] == sh[|sh| - n..];
    assert sg[|sg| - n] == sh[|sh| - n];
    if |g| == |h| {
      assert sg == line[|line| - |sg|..] == sh;
      assert g == sg[1..|sg| - 1] == sh[1..|sh| - 1] == h;
    }
  }

  /** A line that ends with another annotation, `(attached)` or the group of a different
      master, is not a satellite of this group. */
  lemma OtherAnnotationNotKilled(name: string, group: string, other: string, line: string)
    requires '(' !in group && ')' !in group && '(' !in other && ')' !in other && other != group
    requires EndsWith(line, "(" + other + ")")
    ensures !IsSatellite(name, group, line)
  {
    if IsSatellite(name, group, line) {
      var prefix := "_" + name + "-";
      var rest := line[|prefix|..];
      var tail := rest[DigitRun(rest) + 1..];
      SameClosingAnnotation(line, group, other);
    }
  }

  /** Attached satellites are never killed. */
  lemma AttachedNotKilled(name: string, group: string, line: string)
    requires '(' !in group && ')' !in group && group != "attached"
    requires EndsWith(line, "(attached)")
    ensures !IsSatellite(name, group, line)
  {
    assert '(' !in "attached" && ')' !in "attached";
    OtherAnnotationNotKilled(name, group, "attached", line);
  }
}

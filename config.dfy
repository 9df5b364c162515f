/** The non-interactive logic of byobu's configuration utility: reading and rewriting
    the status-notification settings, reading and sanitising the escape key, the
    autolaunch test and the menu loop. Files come in as their contents (`None` where a
    file is missing; for `.profile` in `autolaunch`, also one that cannot be opened) and
    the commands the utility would run come out as argument lists. */
module Config {
  import opened Common
  import opened PyStr
  import opened Sorting

  const Left := "tmux_left"
  const Right := "tmux_right"

  // ---------------------------------------------------------------- reading the status list

  /** A status file as `exec` leaves it: the variables it binds, or the exception it raises. */
  datatype StatusFile = Broken(exception: string) | Defines(vars: map<string, string>)

  /** One row of the status list: 1 if the notification is shown, 0 if hidden. */
  datatype Item = Item(state: int, name: string)

  /** What `readstatus` holds after some files: the variables bound so far (both `exec`
      calls share one dictionary) and the flags recorded so far. */
  datatype Reading = Reading(loc: map<string, string>, status: map<string, int>)

  /** The notification a status token names: a leading `#` marks it hidden, and then
      every `#` in the token is dropped. */
  function Name(token: string): string {
    if "#" <= token then RemoveChar(token, '#') else token
  }

  /** The flag a status token records. */
  function Flag(token: string): int {
    if "#" <= token then 0 else 1
  }

  function Names(tokens: seq<string>): set<string> {
    set i | 0 <= i < |tokens| :: Name(tokens[i])
  }

  /** `status` after recording every token, left to right. */
  function Recorded(status: map<string, int>, tokens: seq<string>): map<string, int> {
    if tokens == [] then status
    else
      var init, last := tokens[..|tokens| - 1], tokens[|tokens| - 1];
      Recorded(status, init)[Name(last) := Flag(last)]
  }

  /** Recording adds exactly the names of the tokens. */
  lemma {:induction false} RecordedKeys(status: map<string, int>, tokens: seq<string>)
    ensures Recorded(status, tokens).Keys == status.Keys + Names(tokens)
  {
    if tokens != [] {
      var init, last := tokens[..|tokens| - 1], tokens[|tokens| - 1];
      RecordedKeys(status, init);
      assert Names(tokens) == Names(init) + {Name(last)} by {
        assert forall i :: 0 <= i < |init| ==> tokens[i] == init[i];
      }
    }
  }

  /** The tokens of both status variables: `"%s %s" % (left, right)` split on whitespace. */
  function Tokens(loc: map<string, string>): seq<string>
    requires Left in loc && Right in loc
  {
    Words(loc[Left] + " " + loc[Right])
  }

  /** One file read by `readstatus`: a missing file is skipped, a file `exec` rejects ends
      the program, and a file that leaves either variable unbound raises `KeyError`. */
  function ReadOne(r: Reading, file: Option<StatusFile>): Outcome<Reading> {
    match file
    case None => Value(r)
    case Some(Broken(_)) => Raised("SystemExit")
    case Some(Defines(vars)) =>
      var loc := r.loc + vars;
      if Left in loc && Right in loc then Value(Reading(loc, Recorded(r.status, Tokens(loc))))
      else Raised("KeyError")
  }

  /** What `readstatus` holds after reading `files` in order. */
  function ReadAll(files: seq<Option<StatusFile>>): Outcome<Reading> {
    if files == [] then Value(Reading(map[], map[]))
    else
      var before := ReadAll(files[..|files| - 1]);
      if before.Raised? then before else ReadOne(before.value, files[|files| - 1])
  }

  /** `items` lists every name of `status` exactly once, in ascending order, with its flag. */
  predicate Lists(items: seq<Item>, status: map<string, int>) {
    && (forall i, j :: 0 <= i < j < |items| ==> Below(items[i].name, items[j].name))
    && (forall i :: 0 <= i < |items| ==> items[i].name in status && items[i].state == status[items[i].name])
    && (forall n :: n in status ==> exists i :: 0 <= i < |items| && items[i].name == n)
  }

  /** `readstatus`: the shared status file, then the user's, recorded into one dictionary
      and listed by name. */
  method ReadStatus(shared: Option<StatusFile>, user: Option<StatusFile>) returns (r: Outcome<seq<Item>>)
    ensures ReadAll([shared, user]).Raised? ==> r == Raised(ReadAll([shared, user]).exception)
    ensures ReadAll([shared, user]).Value? ==> r.Value? && Lists(r.value, ReadAll([shared, user]).value.status)
  {
    var files := [shared, user];
    var loc: map<string, string> := map[];
    var status: map<string, int> := map[];
    var keys: seq<string> := [];
    for j := 0 to 2
      invariant ReadAll(files[..j]) == Value(Reading(loc, status))
      invariant Distinct(keys) && forall n :: n in keys <==> n in status
    {
      ReadNext(files, j);
      match files[j]
      case None =>
      case Some(Broken(_)) =>
        ReadRaised(files, j);
        return Raised("SystemExit");
      case Some(Defines(vars)) =>
        loc := loc + vars;
        if !(Left in loc && Right in loc) {
          ReadRaised(files, j);
          return Raised("KeyError");
        }
        status, keys := Record(status, keys, Words(loc[Left] + " " + loc[Right]));
    }
    assert files[..2] == files;
    var items := SortedItems(status, keys);
    return Value(items);
  }

  /** The inner loop of `readstatus`: each token sets its name's flag; `keys` keeps the
      dictionary's names in insertion order. */
  method Record(status0: map<string, int>, keys0: seq<string>, tokens: seq<string>) returns (status: map<string, int>, keys: seq<string>)
    requires Distinct(keys0) && forall n :: n in keys0 <==> n in status0
    ensures status == Recorded(status0, tokens)
    ensures Distinct(keys) && forall n :: n in keys <==> n in status
  {
    status, keys := status0, keys0;
    for i := 0 to |tokens|
      invariant status == Recorded(status0, tokens[..i])
      invariant Distinct(keys) && forall n :: n in keys <==> n in status
    {
      assert tokens[..i + 1][..i] == tokens[..i];
      var name := Name(tokens[i]);
      if name !in status {
        keys := keys + [name];
      }
      status := status[name := Flag(tokens[i])];
    }
    assert tokens[..|tokens|] == tokens;
  }

  /** The closing loop of `readstatus`: one item per name, in sorted order. */
  method SortedItems(status: map<string, int>, keys: seq<string>) returns (items: seq<Item>)
    requires Distinct(keys) && forall n :: n in keys <==> n in status
    ensures Lists(items, status)
  {
    SortDistinct(keys);
    var names := Sort(keys);
    items := [];
    for i := 0 to |names|
      invariant |items| == i
      invariant forall m :: 0 <= m < i ==> items[m] == Item(status[names[m]], names[m])
    {
      items := items + [Item(status[names[i]], names[i])];
    }
    ItemsListed(status, names, items);
  }

  lemma ItemsListed(status: map<string, int>, names: seq<string>, items: seq<Item>)
    requires StrictlyAscending(names) && forall n :: n in names <==> n in status
    requires |items| == |names| && forall m :: 0 <= m < |names| ==> items[m] == Item(status[names[m]], names[m])
    ensures Lists(items, status)
  {
    forall n | n in status ensures exists i :: 0 <= i < |items| && items[i].name == n {
      var i :| 0 <= i < |names| && names[i] == n;
      assert items[i].name == n;
    }
  }

  /** One more file read. */
  lemma ReadNext(files: seq<Option<StatusFile>>, j: nat)
    requires j < |files|
    ensures ReadAll(files[..j + 1]) ==
      if ReadAll(files[..j]).Raised? then ReadAll(files[..j]) else ReadOne(ReadAll(files[..j]).value, files[j])
  {
    assert files[..j + 1][..j] == files[..j];
  }

  /** A file that raises while being read makes the whole read raise the same way. */
  lemma ReadRaised(files: seq<Option<StatusFile>>, j: nat)
    requires j < |files| == 2 && ReadAll(files[..j]).Value?
    requires ReadOne(ReadAll(files[..j]).value, files[j]).Raised?
    ensures ReadAll(files) == ReadOne(ReadAll(files[..j]).value, files[j])
  {
    assert files[..j + 1][..j] == files[..j];
    if j == 0 {
      assert files[..1][..0] == files[..0];
      assert files[..2][..1] == files[..1] && files[..2] == files;
    } else {
      assert files[..2] == files;
    }
  }

  /** Every flag of `m` is 0 or 1. */
  predicate Bits(m: map<string, int>) {
    forall n :: n in m ==> m[n] == 0 || m[n] == 1
  }

  /** Recording keeps every flag 0 or 1. */
  lemma {:induction false} RecordedBits(status: map<string, int>, tokens: seq<string>)
    requires Bits(status)
    ensures Bits(Recorded(status, tokens))
  {
    if tokens != [] {
      var init, last := tokens[..|tokens| - 1], tokens[|tokens| - 1];
      RecordedBits(status, init);
      assert Recorded(status, tokens) == Recorded(status, init)[Name(last) := Flag(last)];
    }
  }

  /** Every item `readstatus` lists has the flag 0 or 1. */
  lemma {:induction false} ReadBits(files: seq<Option<StatusFile>>)
    requires ReadAll(files).Value?
    ensures Bits(ReadAll(files).value.status)
  {
    if files != [] {
      var init := files[..|files| - 1];
      ReadBits(init);
      var file := files[|files| - 1];
      var r := ReadAll(init).value;
      if file.Some? && file.value.Defines? {
        var loc := r.loc + file.value.vars;
        RecordedBits(r.status, Tokens(loc));
        assert ReadAll(files).value.status == Recorded(r.status, Tokens(loc));
      } else {
        assert ReadAll(files).value.status == r.status;
      }
    }
  }

  /** The last of `tokens` that names `n`. */
  function LastNaming(tokens: seq<string>, n: string): (t: string)
    requires n in Names(tokens)
    ensures t in tokens && Name(t) == n
  {
    var last := tokens[|tokens| - 1];
    if Name(last) == n then last
    else
      var init := tokens[..|tokens| - 1];
      assert n in Names(init) by {
        var i :| 0 <= i < |tokens| && Name(tokens[i]) == n;
        assert i < |init| && init[i] == tokens[i];
      }
      LastNaming(init, n)
  }

  /** The flag recorded for `n` is the one of the last token naming it. */
  lemma {:induction false} RecordedLast(m: map<string, int>, tokens: seq<string>, n: string)
    requires n in Names(tokens)
    ensures n in Recorded(m, tokens) && Recorded(m, tokens)[n] == Flag(LastNaming(tokens, n))
  {
    var init, last := tokens[..|tokens| - 1], tokens[|tokens| - 1];
    assert Recorded(m, tokens) == Recorded(m, init)[Name(last) := Flag(last)];
    if Name(last) != n {
      assert n in Names(init) by {
        var i :| 0 <= i < |tokens| && Name(tokens[i]) == n;
        assert i < |init| && init[i] == tokens[i];
      }
      RecordedLast(m, init, n);
      assert LastNaming(tokens, n) == LastNaming(init, n);
    }
  }

  /** The last token naming `n` decides its flag, whatever was recorded before. */
  lemma {:induction false} RecordedOverride(m1: map<string, int>, m2: map<string, int>, tokens: seq<string>, n: string)
    requires n in Names(tokens)
    ensures n in Recorded(m1, tokens) && n in Recorded(m2, tokens)
    ensures Recorded(m1, tokens)[n] == Recorded(m2, tokens)[n]
  {
    RecordedKeys(m1, tokens);
    RecordedKeys(m2, tokens);
    var init, last := tokens[..|tokens| - 1], tokens[|tokens| - 1];
    if Name(last) != n {
      var i :| 0 <= i < |tokens| && Name(tokens[i]) == n;
      assert i < |init| && init[i] == tokens[i];
      RecordedOverride(m1, m2, init, n);
    }
  }

  /** A name no token mentions keeps the flag recorded before. */
  lemma {:induction false} RecordedKeeps(m: map<string, int>, tokens: seq<string>, n: string)
    requires n !in Names(tokens) && n in m
    ensures n in Recorded(m, tokens) && Recorded(m, tokens)[n] == m[n]
  {
    if tokens != [] {
      var init := tokens[..|tokens| - 1];
      assert n !in Names(init) by {
        assert forall i :: 0 <= i < |init| ==> init[i] == tokens[i];
      }
      assert Name(tokens[|tokens| - 1]) in Names(tokens);
      RecordedKeeps(m, init, n);
    }
  }

  /** Both status files define the variables: the user's tokens, taken from both
      variables as bound after both files, are recorded over the shared file's. */
  lemma ReadBoth(shared: map<string, string>, user: map<string, string>)
    requires Left in shared && Right in shared
    ensures ReadAll([Some(Defines(shared)), Some(Defines(user))])
      == Value(Reading(shared + user, Recorded(Recorded(map[], Tokens(shared)), Tokens(shared + user))))
  {
    var files := [Some(Defines(shared)), Some(Defines(user))];
    assert files[..1][..0] == [];
    assert map[] + shared == shared;
    assert ReadAll(files[..1]) == ReadOne(Reading(map[], map[]), files[0]);
    var first := Reading(shared, Recorded(map[], Tokens(shared)));
    assert ReadAll(files[..1]) == Value(first);
    assert files[..2] == files;
    assert ReadAll(files) == ReadOne(first, files[1]);
  }

  /** The user's file is read after the shared one: a name among its tokens takes the
      user's flag, and any other name keeps the shared file's flag. A variable the user's
      file leaves out still comes from the shared file. */
  lemma UserFileOverrides(shared: map<string, string>, user: map<string, string>, n: string)
    requires Left in shared && Right in shared
    ensures ReadAll([Some(Defines(shared)), Some(Defines(user))]).Value?
    ensures var first, second := Tokens(shared), Tokens(shared + user);
      var status := ReadAll([Some(Defines(shared)), Some(Defines(user))]).value.status;
      && (n in status <==> n in Names(first) || n in Names(second))
      && (n in Names(second) ==> n in status && Flag(LastNaming(second, n)) == status[n])
      && (n !in Names(second) && n in Names(first) ==> n in status && Flag(LastNaming(first, n)) == status[n])
  {
    ReadBoth(shared, user);
    var first, second := Tokens(shared), Tokens(shared + user);
    var m1 := Recorded(map[], first);
    RecordedKeys(map[], first);
    RecordedKeys(m1, second);
    if n in Names(second) {
      RecordedLast(m1, second, n);
    } else if n in Names(first) {
      RecordedKeeps(m1, second, n);
      RecordedLast(map[], first, n);
    }
  }

  // ---------------------------------------------------------------- generating a template

  /** The template of `key` in the shared status file, split on whitespace. The file is
      read afresh; a missing file, a file `exec` rejects and an unbound variable raise. */
  function Template(shared: Option<StatusFile>, key: string): Outcome<seq<string>> {
    match shared
    case None => Raised("FileNotFoundError")
    case Some(Broken(e)) => Raised(e)
    case Some(Defines(vars)) => if key in vars then Value(Words(vars[key])) else Raised("KeyError")
  }

  /** Every token of the template names a notification that has a flag. */
  predicate Known(status: map<string, int>, tokens: seq<string>) {
    forall i :: 0 <= i < |tokens| ==> Name(tokens[i]) in status
  }

  /** The word written for a notification: its name when shown, `#` and its name otherwise. */
  function Word(status: map<string, int>, name: string): string
    requires name in status
  {
    if status[name] == 1 then name else "#" + name
  }

  /** The text written for a whole template, one ` word` per token. */
  function Emitted(status: map<string, int>, tokens: seq<string>): string
    requires Known(status, tokens)
  {
    if tokens == [] then ""
    else
      var init := tokens[..|tokens| - 1];
      assert Known(status, init) by {
        assert forall i :: 0 <= i < |init| ==> init[i] == tokens[i];
      }
      Emitted(status, init) + " " + Word(status, Name(tokens[|tokens| - 1]))
  }

  /** What `genstatusstring` returns for `key`: the template's text, or the exception
      raised on the way (`KeyError` for a token without a flag). */
  function Generated(shared: Option<StatusFile>, key: string, status: map<string, int>): Outcome<string> {
    match Template(shared, key)
    case Raised(e) => Raised(e)
    case Value(tokens) => if Known(status, tokens) then Value(Emitted(status, tokens)) else Raised("KeyError")
  }

  /** `genstatusstring`: rebuilds the template of `key` with each token's current flag. */
  method GenStatusString(key: string, status: map<string, int>, shared: Option<StatusFile>) returns (r: Outcome<string>)
    ensures r == Generated(shared, key, status)
  {
    var t := Template(shared, key);
    if t.Raised? {
      return Raised(t.exception);
    }
    r := Emit(status, t.value);
  }

  /** The loop of `genstatusstring` over the template's tokens. */
  method Emit(status: map<string, int>, tokens: seq<string>) returns (r: Outcome<string>)
    ensures r == if Known(status, tokens) then Value(Emitted(status, tokens)) else Raised("KeyError")
  {
    var text := "";
    for i := 0 to |tokens|
      invariant Known(status, tokens[..i]) && text == Emitted(status, tokens[..i])
    {
      var name := Name(tokens[i]);
      if name !in status {
        assert !Known(status, tokens) by { assert Name(tokens[i]) !in status; }
        return Raised("KeyError");
      }
      EmittedNext(status, tokens, i);
      if status[name] == 1 {
        assert Word(status, name) == name;
        text := text + " " + name;
      } else {
        assert Word(status, name) == "#" + name;
        text := text + " #" + name;
      }
    }
    assert tokens[..|tokens|] == tokens;
    return Value(text);
  }

  /** One more token written. */
  lemma EmittedNext(status: map<string, int>, tokens: seq<string>, i: nat)
    requires i < |tokens| && Known(status, tokens[..i]) && Name(tokens[i]) in status
    ensures Known(status, tokens[..i + 1])
    ensures Emitted(status, tokens[..i + 1]) == Emitted(status, tokens[..i]) + " " + Word(status, Name(tokens[i]))
  {
    assert tokens[..i + 1][..i] == tokens[..i];
  }

  /** The text of a non-empty template ends with the last token's word. */
  lemma EmittedLast(status: map<string, int>, tokens: seq<string>)
    requires tokens != [] && Known(status, tokens)
    ensures Known(status, tokens[..|tokens| - 1])
    ensures var w := Word(status, Name(tokens[|tokens| - 1]));
      Emitted(status, tokens) == Emitted(status, tokens[..|tokens| - 1]) + (" " + w)
  {
  }

  /** A name that is a single word with no `#` in it. */
  predicate Plain(name: string) {
    IsWord(name) && '#' !in name
  }

  /** The words written for a template, in order. */
  function Shown(status: map<string, int>, tokens: seq<string>): seq<string>
    requires Known(status, tokens)
  {
    seq(|tokens|, i requires 0 <= i < |tokens| => Word(status, Name(tokens[i])))
  }

  lemma ShownSnoc(status: map<string, int>, tokens: seq<string>)
    requires tokens != [] && Known(status, tokens)
    ensures Known(status, tokens[..|tokens| - 1])
    ensures Shown(status, tokens) == Shown(status, tokens[..|tokens| - 1]) + [Word(status, Name(tokens[|tokens| - 1]))]
  {
    var init := tokens[..|tokens| - 1];
    assert forall i :: 0 <= i < |init| ==> init[i] == tokens[i];
  }

  /** Splitting the written text gives back the written words. */
  lemma {:induction false} EmittedWords(status: map<string, int>, tokens: seq<string>)
    requires Known(status, tokens) && forall i :: 0 <= i < |tokens| ==> Plain(Name(tokens[i]))
    ensures ReadsAs(Emitted(status, tokens), Shown(status, tokens))
  {
    if tokens == [] {
      assert Words("") == [];
    } else {
      var init, last := tokens[..|tokens| - 1], tokens[|tokens| - 1];
      assert forall i :: 0 <= i < |init| ==> init[i] == tokens[i];
      EmittedLast(status, tokens);
      ShownSnoc(status, tokens);
      EmittedWords(status, init);
      var w := Word(status, Name(last));
      assert IsWord(w);
      WordsAppend(Emitted(status, init), " " + w);
      SpacedWord(w);
      ReadsAsSnoc(Emitted(status, init), w, Shown(status, init));
    }
  }

  /** `text.split()` is `ws`. */
  predicate ReadsAs(text: string, ws: seq<string>) {
    Words(text) == ws
  }

  lemma ReadsAsSnoc(text: string, w: string, ws: seq<string>)
    requires ReadsAs(text, ws) && SplitsApart(text, " " + w) && Words(" " + w) == [w]
    ensures ReadsAs(text + (" " + w), ws + [w])
  {
  }

  /** Reading a written word back gives its name and its flag as 0 or 1. */
  lemma WordReadBack(status: map<string, int>, name: string)
    requires name in status && Plain(name)
    ensures Name(Word(status, name)) == name
    ensures Flag(Word(status, name)) == if status[name] == 1 then 1 else 0
  {
    if status[name] != 1 {
      assert ("#" + name)[1..] == name;
      RemoveAbsent(name, '#');
      assert RemoveChar("#" + name, '#') == RemoveChar(name, '#');
    } else {
      assert !("#" <= name) by { assert name[0] != '#'; }
    }
  }

  /** Writing a template and reading the written text back with `readstatus`'s rule
      restores every flag of the template's notifications (as 0 or 1), whatever was
      recorded before. */
  lemma GeneratedReadsBack(status: map<string, int>, tokens: seq<string>, before: map<string, int>, n: string)
    requires Known(status, tokens) && forall i :: 0 <= i < |tokens| ==> Plain(Name(tokens[i]))
    requires n in Names(tokens)
    ensures var m := Recorded(before, Words(Emitted(status, tokens)));
      n in m && m[n] == if status[n] == 1 then 1 else 0
  {
    EmittedWords(status, tokens);
    ShownReadsBack(status, tokens, before, n);
  }

  /** Reading the written words back restores the flag of every template notification. */
  lemma ShownReadsBack(status: map<string, int>, tokens: seq<string>, before: map<string, int>, n: string)
    requires Known(status, tokens) && forall i :: 0 <= i < |tokens| ==> Plain(Name(tokens[i]))
    requires n in Names(tokens)
    ensures var m := Recorded(before, Shown(status, tokens));
      n in m && m[n] == if status[n] == 1 then 1 else 0
  {
    var ws := Shown(status, tokens);
    var i :| 0 <= i < |tokens| && Name(tokens[i]) == n;
    WordReadBack(status, n);
    assert n in Names(ws) by { assert Name(ws[i]) == n; }
    RecordedLast(before, ws, n);
    var j :| 0 <= j < |ws| && ws[j] == LastNaming(ws, n);
    WordReadBack(status, Name(tokens[j]));
  }

  // ---------------------------------------------------------------- rewriting the status file

  /** The flags `writestatus` writes: one per item's name, a later item winning. */
  function StatusOf(items: seq<Item>): map<string, int> {
    if items == [] then map[]
    else
      var last := items[|items| - 1];
      StatusOf(items[..|items| - 1])[last.name := last.state]
  }

  /** The line assigns `key`: it starts with `key=`. */
  predicate Assigns(key: string, line: string) {
    key + "=" <= line
  }

  /** The line written for an assignment of `key`. */
  function Assignment(key: string, value: string): string {
    key + "=\"" + value + "\"\n"
  }

  /** A line as a pass for `key` writes it. */
  function Replaced(key: string, value: string, line: string): string {
    if Assigns(key, line) then Assignment(key, value) else line
  }

  /** Every line as a pass for `key` writes it. */
  function Substituted(key: string, value: string, lines: seq<string>): seq<string> {
    seq(|lines|, i requires 0 <= i < |lines| => Replaced(key, value, lines[i]))
  }

  /** Index of the first line assigning `key`, or the number of lines. */
  function FirstAssignment(key: string, lines: seq<string>): (k: nat)
    ensures k <= |lines|
    ensures forall i :: 0 <= i < k ==> !Assigns(key, lines[i])
    ensures k < |lines| ==> Assigns(key, lines[k])
  {
    if lines == [] then 0
    else if Assigns(key, lines[0]) then 0
    else 1 + FirstAssignment(key, lines[1..])
  }

  /** The file's lines after one pass and the exception it ends with, if any: every line
      assigning `key` rewritten, or, when the text cannot be generated, the lines before
      the first assigning line. */
  function Pass(key: string, generated: Outcome<string>, lines: seq<string>): (seq<string>, Option<string>) {
    match generated
    case Value(v) => (Substituted(key, v, lines), None)
    case Raised(e) =>
      var k := FirstAssignment(key, lines);
      if k == |lines| then (lines, None) else (lines[..k], Some(e))
  }

  /** The user's status file after `writestatus` (`None` while it does not exist) and the
      exception the call ends with, if any. */
  datatype Saved = Saved(file: Option<seq<string>>, failure: Option<string>)

  /** The passes of `writestatus` for `keys`, in order: each reads the user's file, or the
      shared one while the user has none, and writes the user's file. */
  function Passes(status: map<string, int>, keys: seq<string>, file: Option<seq<string>>,
                  sharedLines: Option<seq<string>>, shared: Option<StatusFile>): Saved
  {
    if keys == [] then Saved(file, None)
    else
      var source := if file.Some? then file else sharedLines;
      if source.None? then Saved(file, Some("FileNotFoundError"))
      else
        var p := Pass(keys[0], Generated(shared, keys[0], status), source.value);
        if p.1.Some? then Saved(Some(p.0), p.1)
        // The saved file is the next pass's lines: `RewriteLine` ends every rewritten line
        // with `\n` and copies the others verbatim, as `readlines` would give them back.
        else Passes(status, keys[1..], Some(p.0), sharedLines, shared)
  }

  /** `writestatus`: takes the flags from `items`, then rewrites the `tmux_left=` lines and
      then the `tmux_right=` lines of the user's status file. `user` and `sharedLines` are
      the two files' lines; `shared` is the shared file as `exec` sees it. */
  method WriteStatus(items: seq<Item>, user: Option<seq<string>>, sharedLines: Option<seq<string>>,
                     shared: Option<StatusFile>) returns (saved: Saved)
    ensures saved == Passes(StatusOf(items), [Left, Right], user, sharedLines, shared)
  {
    var status: map<string, int> := map[];
    for i := 0 to |items|
      invariant status == StatusOf(items[..i])
    {
      assert items[..i + 1][..i] == items[..i];
      status := status[items[i].name := items[i].state];
    }
    assert items[..|items|] == items;
    var keys := [Left, Right];
    var file := user;
    for j := 0 to 2
      invariant Passes(status, keys, user, sharedLines, shared) == Passes(status, keys[j..], file, sharedLines, shared)
    {
      assert keys[j..][0] == keys[j] && keys[j..][1..] == keys[j + 1..];
      var lines;
      if file.Some? {
        lines := file.value;
      } else if sharedLines.Some? {
        lines := sharedLines.value;
      } else {
        return Saved(file, Some("FileNotFoundError"));
      }
      var out, failure := RewritePass(keys[j], status, shared, lines);
      file := Some(out);
      if failure.Some? {
        return Saved(file, failure);
      }
    }
    assert keys[2..] == [];
    return Saved(file, None);
  }

  /** One pass of `writestatus` over the lines read. */
  method RewritePass(key: string, status: map<string, int>, shared: Option<StatusFile>, lines: seq<string>)
    returns (out: seq<string>, failure: Option<string>)
    ensures (out, failure) == Pass(key, Generated(shared, key, status), lines)
  {
    ghost var g := Generated(shared, key, status);
    out, failure := [], None;
    for i := 0 to |lines|
      invariant g.Value? ==> RewrittenUpTo(key, g.value, lines, out, i)
      invariant g.Raised? ==> i <= FirstAssignment(key, lines) && out == lines[..i]
      invariant failure.None?
    {
      var written;
      written, failure := RewriteLine(key, status, shared, lines[i]);
      if failure.Some? {
        assert i == FirstAssignment(key, lines);
        return out, failure;
      }
      if g.Value? {
        RewrittenNext(key, g.value, lines, out, i);
      } else {
        assert lines[..i + 1] == lines[..i] + [lines[i]];
      }
      out := out + [written];
    }
    if g.Value? {
      RewrittenAll(key, g.value, lines, out);
    } else {
      assert lines[..|lines|] == lines;
    }
  }

  /** One line of a pass: a line assigning `key` is written with the generated text, or
      the pass stops with the exception raised; any other line is copied. */
  method RewriteLine(key: string, status: map<string, int>, shared: Option<StatusFile>, line: string)
    returns (written: string, failure: Option<string>)
    ensures var g := Generated(shared, key, status);
      && (failure.Some? <==> Assigns(key, line) && g.Raised?)
      && (failure.Some? ==> failure.value == g.exception)
      && (failure.None? && g.Value? ==> written == Replaced(key, g.value, line))
      && (failure.None? && g.Raised? ==> written == line)
  {
    written, failure := line, None;
    if Assigns(key, line) {
      var text := GenStatusString(key, status, shared);
      if text.Raised? {
        failure := Some(text.exception);
      } else {
        written := key + "=\"" + text.value + "\"\n";
      }
    }
  }

  /** The first `i` lines written by a pass whose text is `value`. */
  predicate RewrittenUpTo(key: string, value: string, lines: seq<string>, out: seq<string>, i: nat) {
    i <= |lines| && |out| == i && forall m :: 0 <= m < i ==> out[m] == Replaced(key, value, lines[m])
  }

  lemma RewrittenNext(key: string, value: string, lines: seq<string>, out: seq<string>, i: nat)
    requires RewrittenUpTo(key, value, lines, out, i) && i < |lines|
    ensures RewrittenUpTo(key, value, lines, out + [Replaced(key, value, lines[i])], i + 1)
  {
  }

  lemma RewrittenAll(key: string, value: string, lines: seq<string>, out: seq<string>)
    requires RewrittenUpTo(key, value, lines, out, |lines|)
    ensures out == Substituted(key, value, lines)
  {
  }

  /** When both templates can be generated, `writestatus` keeps the number of lines, writes
      each `tmux_left=` and `tmux_right=` line with its template's text, and copies every
      other line as it was. */
  lemma WrittenLines(status: map<string, int>, user: Option<seq<string>>, sharedLines: Option<seq<string>>,
                     shared: Option<StatusFile>, left: string, right: string)
    requires Generated(shared, Left, status) == Value(left) && Generated(shared, Right, status) == Value(right)
    requires user.Some? || sharedLines.Some?
    ensures var lines := if user.Some? then user.value else sharedLines.value;
      var saved := Passes(status, [Left, Right], user, sharedLines, shared);
      && saved.failure.None? && saved.file.Some? && |saved.file.value| == |lines|
      && (forall i :: 0 <= i < |lines| ==>
            saved.file.value[i] == (if Assigns(Left, lines[i]) then Assignment(Left, left)
                                    else if Assigns(Right, lines[i]) then Assignment(Right, right)
                                    else lines[i]))
  {
    var lines := if user.Some? then user.value else sharedLines.value;
    var once := Substituted(Left, left, lines);
    var twice := Substituted(Right, right, once);
    assert [Left, Right][0] == Left && [Left, Right][1..] == [Right];
    assert [Right][0] == Right && [Right][1..] == [];
    assert Pass(Left, Generated(shared, Left, status), lines) == (once, None);
    assert Passes(status, [Left, Right], user, sharedLines, shared) == Passes(status, [Right], Some(once), sharedLines, shared);
    assert Pass(Right, Generated(shared, Right, status), once) == (twice, None);
    assert Passes(status, [Right], Some(once), sharedLines, shared) == Passes(status, [], Some(twice), sharedLines, shared);
    assert !Assigns(Right, Assignment(Left, left)) by {
      assert (Right + "=")[5] == 'r' && Assignment(Left, left)[5] == 'l';
    }
  }

  /** When the `tmux_left` template cannot be generated, the first pass stops at the first
      `tmux_left=` line: the file keeps only the lines before it and the exception ends
      the call. */
  lemma FailedPassTruncates(status: map<string, int>, user: Option<seq<string>>, sharedLines: Option<seq<string>>,
                            shared: Option<StatusFile>)
    requires Generated(shared, Left, status).Raised?
    requires user.Some? || sharedLines.Some?
    requires var lines := if user.Some? then user.value else sharedLines.value;
      exists i :: 0 <= i < |lines| && Assigns(Left, lines[i])
    ensures var lines := if user.Some? then user.value else sharedLines.value;
      Passes(status, [Left, Right], user, sharedLines, shared)
        == Saved(Some(lines[..FirstAssignment(Left, lines)]), Some(Generated(shared, Left, status).exception))
  {
    var lines := if user.Some? then user.value else sharedLines.value;
    var i :| 0 <= i < |lines| && Assigns(Left, lines[i]);
    assert FirstAssignment(Left, lines) < |lines|;
  }

  /** Items with distinct names give each name its item's flag. */
  lemma {:induction false} StatusOfDistinct(items: seq<Item>)
    requires forall i, j :: 0 <= i < j < |items| ==> items[i].name != items[j].name
    ensures forall n :: n in StatusOf(items) <==> exists i :: 0 <= i < |items| && items[i].name == n
    ensures forall i :: 0 <= i < |items| ==> StatusOf(items)[items[i].name] == items[i].state
  {
    if items != [] {
      var init := items[..|items| - 1];
      assert forall i :: 0 <= i < |init| ==> init[i] == items[i];
      StatusOfDistinct(init);
    }
  }

  /** Writing back the list `readstatus` produced, unchanged, writes the flags it read. */
  lemma ListedFlagsWrittenBack(items: seq<Item>, status: map<string, int>)
    requires Lists(items, status)
    ensures StatusOf(items) == status
  {
    forall i, j | 0 <= i < j < |items| ensures items[i].name != items[j].name {
      BelowIrreflexive(items[i].name);
    }
    StatusOfDistinct(items);
  }

  // ---------------------------------------------------------------- the escape key

  const DefaultEscape := "A"
  const PrefixCommand := "set -g prefix "

  /** The last of `lines` that sets the tmux prefix. */
  function LastPrefixLine(lines: seq<string>): (r: Option<string>)
    ensures r.Some? ==> PrefixCommand <= r.value
  {
    if lines == [] then None
    else if PrefixCommand <= lines[|lines| - 1] then Some(lines[|lines| - 1])
    else LastPrefixLine(lines[..|lines| - 1])
  }

  /** The escape key a keybindings file sets, as `getesckey` reads it: the character just
      after the first `^` of the last prefix line (the line's first character when it has
      no `^`), a backtick read as a space, and `A` without a file or a prefix line. */
  function EscKey(file: Option<seq<string>>): Outcome<string> {
    if file.None? || LastPrefixLine(file.value).None? then Value(DefaultEscape)
    else
      var line := LastPrefixLine(file.value).value;
      var i := Find(line, "^") + 1;
      if i < |line| then Value(if line[i] == '`' then " " else [line[i]])
      else Raised("IndexError")
  }

  /** `getesckey` on the user's `keybindings.tmux` (`None` when it does not exist). */
  method GetEscKey(file: Option<seq<string>>) returns (r: Outcome<string>)
    ensures r == EscKey(file)
  {
    if file.None? {
      return Value(DefaultEscape);
    }
    var lines := file.value;
    var line := "";
    for i := 0 to |lines|
      invariant line == if LastPrefixLine(lines[..i]).Some? then LastPrefixLine(lines[..i]).value else ""
    {
      assert lines[..i + 1][..i] == lines[..i];
      if PrefixCommand <= lines[i] {
        line := lines[i];
      }
    }
    assert lines[..|lines|] == lines;
    if line == "" {
      return Value(DefaultEscape);
    }
    var esc := Find(line, "^") + 1;
    if esc >= |line| {
      return Raised("IndexError");
    }
    if line[esc] == '`' {
      return Value(" ");
    }
    return Value([line[esc]]);
  }

  /** A later prefix line overrides every earlier line. */
  lemma LastPrefixWins(lines: seq<string>, line: string)
    requires PrefixCommand <= line
    ensures EscKey(Some(lines + [line])) == EscKey(Some([line]))
  {
    assert (lines + [line])[|lines|] == line;
    assert [line][..0] == [];
  }

  /** A line that does not set the prefix changes nothing. */
  lemma OtherLineIgnored(lines: seq<string>, line: string)
    requires !(PrefixCommand <= line)
    ensures EscKey(Some(lines + [line])) == EscKey(Some(lines))
  {
    assert (lines + [line])[..|lines|] == lines;
  }

  /** Without a prefix line the key is `A`. */
  lemma {:induction false} NoPrefixLine(lines: seq<string>)
    requires forall i :: 0 <= i < |lines| ==> !(PrefixCommand <= lines[i])
    ensures EscKey(Some(lines)) == Value(DefaultEscape)
  {
    if lines != [] {
      var init := lines[..|lines| - 1];
      assert forall i :: 0 <= i < |init| ==> init[i] == lines[i];
      NoPrefixLine(init);
    }
  }

  /** `set -g prefix ^X…` gives `X`, and a backtick gives a space. */
  lemma CaretKey(c: char, rest: string)
    ensures EscKey(Some([PrefixCommand + "^" + [c] + rest])) == Value(if c == '`' then " " else [c])
  {
    var line := PrefixCommand + "^" + [c] + rest;
    assert Occurs(line, "^", 14) by { assert line[14..15] == "^"; }
    forall i | 0 <= i < 14 ensures !Occurs(line, "^", i) {
      assert line[i..i + 1] == [PrefixCommand[i]];
    }
    assert Find(line, "^") == 14;
    assert line[15] == c;
  }

  /** A prefix line without `^` (such as `set -g prefix C-a`) gives its first character, `s`. */
  lemma NoCaretGivesS(line: string)
    requires PrefixCommand <= line && '^' !in line
    ensures EscKey(Some([line])) == Value("s")
  {
    FindChar(line, '^');
    assert line[0] == PrefixCommand[0];
  }

  /** `str.isalpha` on ASCII text: non-empty and letters only. */
  predicate IsAlpha(s: string) {
    |s| > 0 && forall i :: 0 <= i < |s| ==> 'a' <= s[i] <= 'z' || 'A' <= s[i] <= 'Z'
  }

  /** `setesckey`: the command it runs; a key that is not alphabetic runs nothing. */
  function SetEscKey(key: string): (commands: seq<seq<string>>)
    ensures |commands| <= 1
    ensures commands != [] <==> IsAlpha(key)
    ensures commands != [] ==> commands[0] == ["byobu-ctrl-a", "screen", key]
  {
    if IsAlpha(key) then [["byobu-ctrl-a", "screen", key]] else []
  }

  /** The rule `chgesc` applies to the key field on every timer tick: a longer value is cut
      to its second character, a value that was `/` or a backslash becomes `A`, and a value
      `int` accepts becomes `A`. */
  function Sanitize(value: string): (r: string)
    ensures |r| <= 1 && ParseInt(r).None?
    ensures r == DefaultEscape || (|value| > 1 && r == [value[1]]) || r == value
    ensures value == "/" || value == "\\" ==> r == DefaultEscape
    ensures var cut := if |value| > 1 then [value[1]] else value;
      value != "/" && value != "\\" ==> r == (if ParseInt(cut).None? then cut else DefaultEscape)
  {
    var cut := if |value| > 1 then [value[1]] else value;
    var checked := if value == "/" || value == "\\" then DefaultEscape else cut;
    OneCharInt('A');
    if ParseInt(checked).Some? then DefaultEscape else checked
  }

  /** A value settles in two ticks: after two applications the rule changes nothing more,
      and the value is neither `/` nor a backslash. */
  lemma SanitizeSettles(value: string)
    ensures var twice := Sanitize(Sanitize(value));
      Sanitize(twice) == twice && twice != "/" && twice != "\\"
  {
    var once := Sanitize(value);
    var twice := Sanitize(once);
    assert |twice| <= 1 && ParseInt(twice).None?;
    if once == "/" || once == "\\" {
      assert twice == DefaultEscape;
    } else {
      assert twice == once;
    }
    OneCharInt('A');
  }

  /** One tick lets a slash through when it was typed second: `x/` becomes `/`, which the
      next tick turns into `A`. */
  lemma SlashNeedsSecondTick()
    ensures Sanitize("x/") == "/" && Sanitize("/") == DefaultEscape
  {
    OneCharInt('/');
  }

  /** Whatever the field held, the key passed on after sanitising is a single letter or
      nothing is run. */
  lemma SanitizedKeyCommand(value: string)
    ensures var commands := SetEscKey(Sanitize(value));
      commands == [] || (|Sanitize(value)| == 1 && commands == [["byobu-ctrl-a", "screen", Sanitize(value)]])
  {
  }

  // ---------------------------------------------------------------- autolaunch

  const LaunchMarker := "byobu-launch"

  /** `autolaunch()`: `disabled` is whether the `disable-autolaunch` marker exists, `profile`
      the lines of `~/.profile` (`None` when it cannot be opened) and `profileScript`
      whether the system-wide profile.d launcher exists. */
  method Autolaunch(disabled: bool, profile: Option<seq<string>>, profileScript: bool) returns (r: int)
    ensures r == 0 || r == 1
    ensures disabled ==> r == 0
    ensures !disabled && profile.None? ==> r == 0
    ensures !disabled && profile.Some? ==>
      (r == 1 <==> profileScript || exists i :: 0 <= i < |profile.value| && Contains(profile.value[i], LaunchMarker))
  {
    if disabled {
      return 0;
    }
    if profile.None? {
      return 0;
    }
    var lines := profile.value;
    for i := 0 to |lines|
      invariant forall j :: 0 <= j < i ==> !Contains(lines[j], LaunchMarker)
    {
      if Contains(lines[i], LaunchMarker) {
        return 1;
      }
    }
    if profileScript {
      return 1;
    }
    return 0;
  }

  // ---------------------------------------------------------------- the menu loop

  /** One round at the menu: what the menu returned (0 for Exit, otherwise the entry
      1 to 4) and what `autolaunch()` reports if it is asked again after this round. */
  datatype Visit = Visit(pick: int, launchAfter: int)

  /** What the loop passes to the outside world: the `isInstalled` value shown at each
      menu, and the launcher commands `install` runs. */
  datatype Trace = Trace(menus: seq<int>, launchers: seq<string>)

  function Join(a: Trace, b: Trace): Trace {
    Trace(a.menus + b.menus, a.launchers + b.launchers)
  }

  /** The command `install` runs for the current `isInstalled`. */
  function Launcher(installed: int): string {
    if installed != 0 then "byobu-launcher-uninstall" else "byobu-launcher-install"
  }

  /** The tag a menu pick leaves in `tag` once its screen has returned. */
  function Handler(pick: int, installed: int): (tag: int)
    ensures 1 <= pick <= 3 ==> tag == 100
    ensures pick == 4 ==> tag == (if installed != 0 then 101 else 100)
    ensures !(1 <= pick <= 4) ==> tag == pick
    ensures 1 <= pick <= 4 ==> tag > 0
  {
    if pick == 1 || pick == 2 || pick == 3 then 100
    else if pick == 4 then (if installed != 0 then 101 else 100)
    else pick
  }

  /** `isInstalled` after a round: only the install screen makes the loop ask again. */
  function Installed(v: Visit, installed: int): int {
    if v.pick == 4 then v.launchAfter else installed
  }

  /** The loop run from a menu showing `installed`; a menu with no rounds left exits. */
  function Run(installed: int, visits: seq<Visit>): Trace
    decreases |visits|
  {
    if visits == [] then Trace([installed], [])
    else
      var v := visits[0];
      var here := Trace([installed], if v.pick == 4 then [Launcher(installed)] else []);
      if Handler(v.pick, installed) > 0 then Join(here, Run(Installed(v, installed), visits[1..]))
      else here
  }

  /** `main()` after its first `autolaunch()`, which gives `installed0`. */
  method MainLoop(installed0: int, visits: seq<Visit>) returns (t: Trace)
    ensures t == Run(installed0, visits)
  {
    var isInstalled := installed0;
    var tag := 100;
    var k := 0;
    t := Trace([], []);
    while tag > 0
      invariant 0 <= k <= |visits|
      invariant tag > 0 ==> Run(installed0, visits) == Join(t, Run(isInstalled, visits[k..]))
      invariant tag <= 0 ==> Run(installed0, visits) == t
      decreases |visits| - k + (if tag > 0 then 1 else 0)
    {
      if k == |visits| {
        JoinMenu(t, isInstalled);
        t := Trace(t.menus + [isInstalled], t.launchers);
        tag := 0;
      } else {
        var v := visits[k];
        RunFrom(isInstalled, visits, k);
        var launched, next;
        tag, launched, next := Screen(v, isInstalled);
        JoinRound(t, isInstalled, launched, Run(next, visits[k + 1..]));
        t := Trace(t.menus + [isInstalled], t.launchers + launched);
        isInstalled := next;
        k := k + 1;
      }
    }
  }

  /** The screen the menu's pick opens, with what it returns, the launcher command it
      runs and `isInstalled` afterwards. */
  method Screen(v: Visit, installed: int) returns (tag: int, launched: seq<string>, next: int)
    ensures tag == Handler(v.pick, installed)
    ensures launched == if v.pick == 4 then [Launcher(installed)] else []
    ensures next == Installed(v, installed)
  {
    tag, launched, next := v.pick, [], installed;
    if tag == 1 || tag == 2 || tag == 3 {
      tag := 100;
    } else if tag == 4 {
      launched := [Launcher(installed)];
      tag := if installed != 0 then 101 else 100;
      next := v.launchAfter;
    }
  }

  /** `Run` on the rounds from `k` on. */
  lemma RunFrom(installed: int, visits: seq<Visit>, k: nat)
    requires k < |visits|
    ensures var v := visits[k];
      var here := Trace([installed], if v.pick == 4 then [Launcher(installed)] else []);
      Run(installed, visits[k..]) ==
        if Handler(v.pick, installed) > 0 then Join(here, Run(Installed(v, installed), visits[k + 1..])) else here
  {
    assert visits[k..][0] == visits[k] && visits[k..][1..] == visits[k + 1..];
  }

  lemma JoinMenu(t: Trace, installed: int)
    ensures Join(t, Trace([installed], [])) == Trace(t.menus + [installed], t.launchers)
  {
    assert t.launchers + [] == t.launchers;
  }

  lemma JoinRound(t: Trace, installed: int, launched: seq<string>, rest: Trace)
    ensures Join(t, Trace([installed], launched)) == Trace(t.menus + [installed], t.launchers + launched)
    ensures Join(t, Join(Trace([installed], launched), rest)) == Join(Trace(t.menus + [installed], t.launchers + launched), rest)
  {
    assert t.menus + ([installed] + rest.menus) == (t.menus + [installed]) + rest.menus;
    assert t.launchers + (launched + rest.launchers) == (t.launchers + launched) + rest.launchers;
  }

  /** What `menu` can return: 0 for Exit, else the selected entry. */
  predicate MenuPicks(visits: seq<Visit>) {
    forall i :: 0 <= i < |visits| ==> 0 <= visits[i].pick <= 4
  }

  /** The index of the first round where the menu returned Exit, or `|visits|`. */
  function FirstExit(visits: seq<Visit>): (n: nat)
    ensures n <= |visits|
    ensures forall i :: 0 <= i < n ==> visits[i].pick != 0
    ensures n < |visits| ==> visits[n].pick == 0
  {
    if visits == [] || visits[0].pick == 0 then 0 else 1 + FirstExit(visits[1..])
  }

  /** The loop keeps showing the menu until it returns Exit and stops right there: every
      screen it opens returns a positive tag. */
  lemma {:induction false} RunStopsAtExit(installed: int, visits: seq<Visit>)
    requires MenuPicks(visits)
    ensures |Run(installed, visits).menus| == FirstExit(visits) + 1
    decreases |visits|
  {
    if visits != [] && visits[0].pick != 0 {
      assert MenuPicks(visits[1..]) by {
        forall i | 0 <= i < |visits[1..]| ensures 0 <= visits[1..][i].pick <= 4 {
          assert visits[1..][i] == visits[i + 1];
        }
      }
      RunStopsAtExit(Installed(visits[0], installed), visits[1..]);
    }
  }

  /** `isInstalled` is recomputed only after the install screen: the menu after any other
      round shows the same value as before it. */
  lemma {:induction false} InstalledOnlyAfterInstall(installed: int, visits: seq<Visit>, i: nat)
    requires i + 1 < |Run(installed, visits).menus|
    ensures i < |visits|
    ensures Run(installed, visits).menus[i + 1] ==
      if visits[i].pick == 4 then visits[i].launchAfter else Run(installed, visits).menus[i]
    decreases |visits|
  {
    var next := Installed(visits[0], installed);
    assert Run(installed, visits).menus == [installed] + Run(next, visits[1..]).menus;
    if i > 0 {
      InstalledOnlyAfterInstall(next, visits[1..], i - 1);
    } else {
      assert Run(next, visits[1..]).menus[0] == next;
    }
  }

  /** Without a visit to the install screen no launcher command runs and every menu
      shows the value the first `autolaunch()` gave. */
  lemma {:induction false} NoInstallKeepsState(installed: int, visits: seq<Visit>)
    requires forall i :: 0 <= i < |visits| ==> visits[i].pick != 4
    ensures Run(installed, visits).launchers == []
    ensures forall i :: 0 <= i < |Run(installed, visits).menus| ==> Run(installed, visits).menus[i] == installed
    decreases |visits|
  {
    if visits != [] && Handler(visits[0].pick, installed) > 0 {
      assert forall i :: 0 <= i < |visits[1..]| ==> visits[1..][i] == visits[i + 1];
      NoInstallKeepsState(installed, visits[1..]);
      assert Run(installed, visits).menus == [installed] + Run(installed, visits[1..]).menus;
    }
  }
}

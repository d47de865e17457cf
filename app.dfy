/**
 * The selection and derivation engine of the form (src/App.jsx): the React state of one form
 * session, the handlers that change it, the execute-enabled predicate and the command line
 * that submitting builds. The catalogue is a parameter; the application passes `Catalogue.Shipped`.
 */
module App {
  import opened Wrappers
  import opened Text
  import opened Dict
  import opened Catalogue

  /** One render's snapshot of the form's state (`output`, written by the process runner, is left out). */
  datatype FormState = FormState(
    command: string,
    subCommand: string,
    action: string,
    options: Dict<string>,
    rocratePath: string,
    schemaFile: string)

  /** `v && v.trim() !== ""` for a value read from the form (`undefined` when absent). */
  predicate Filled(v: Option<string>)
  {
    v.Some? && Trim(v.value, IsJsSpace) != []
  }

  /** `isExecuteDisabled()`. A walk that reads a property of `undefined` throws while rendering. */
  function ExecuteDisabled(cat: Commands, st: FormState): Result<bool, JsError>
  {
    match Walk(cat, st.command, st.subCommand, st.action)
    case Failure(e) => Failure(e)
    case Ok(cur) =>
      if RequiredOf(cur).None? then Ok(true)
      else
        var requiredFilled := forall n :: n in RequiredOf(cur).value ==> Filled(Get(st.options, n));
        var rocratePathFilled := st.command != "rocrate" || Filled(Some(st.rocratePath));
        var schemaFileFilled := st.command != "schema" || Filled(Some(st.schemaFile));
        Ok(!(requiredFilled && rocratePathFilled && schemaFileFilled))
  }

  /** The text holds a character that is not JavaScript whitespace. */
  predicate NonBlank(v: string)
  {
    exists k :: 0 <= k < |v| && !IsJsSpace(v[k])
  }

  /** A value counts as filled exactly when it holds a character that is not JavaScript whitespace. */
  lemma FilledIffNonBlank(v: Option<string>)
    ensures Filled(v) <==> v.Some? && NonBlank(v.value)
  {
    if v.Some? {
      TrimEmptyIffAllDropped(v.value, IsJsSpace);
    }
  }

  /**
   * Execute is enabled exactly when the selection walks to a leaf with a `required` list, every
   * required name has a value with a non-whitespace character, and the path field of a `rocrate`
   * or `schema` command does too.
   */
  lemma ExecuteEnabledIff(cat: Commands, st: FormState)
    ensures ExecuteDisabled(cat, st) == Ok(false) <==>
      var w := Walk(cat, st.command, st.subCommand, st.action);
      && w.Ok? && w.value.AtLeaf? && w.value.leaf.required.Some?
      && (forall n :: n in w.value.leaf.required.value ==> Get(st.options, n).Some? && NonBlank(Get(st.options, n).value))
      && (st.command == "rocrate" ==> NonBlank(st.rocratePath))
      && (st.command == "schema" ==> NonBlank(st.schemaFile))
  {
    var w := Walk(cat, st.command, st.subCommand, st.action);
    if w.Ok? && RequiredOf(w.value).Some? {
      AllFilledIff(RequiredOf(w.value).value, st.options);
      FilledIffNonBlank(Some(st.rocratePath));
      FilledIffNonBlank(Some(st.schemaFile));
    }
  }

  /** Every listed name is filled exactly when each has a value with a non-whitespace character. */
  lemma AllFilledIff(names: seq<string>, opts: Dict<string>)
    ensures (forall n :: n in names ==> Filled(Get(opts, n))) <==>
      (forall n :: n in names ==> Get(opts, n).Some? && NonBlank(Get(opts, n).value))
  {
    forall n { FilledIffNonBlank(Get(opts, n)); }
  }

  /** A full selection walks to the leaf it names. */
  lemma WalkToLeaf(cat: Commands, c: string, s: string, a: string, l: Leaf)
    requires LeafAt(cat, c, s, a, l) && s != "" && a != ""
    ensures Walk(cat, c, s, a) == Ok(AtLeaf(l))
  {
  }

  /** Execute is disabled, without throwing, when the selection does not reach a leaf with a `required` list. */
  lemma DisabledWithoutRequired(cat: Commands, st: FormState)
    requires Walk(cat, st.command, st.subCommand, st.action).Ok?
    requires RequiredOf(Walk(cat, st.command, st.subCommand, st.action).value).None?
    ensures ExecuteDisabled(cat, st) == Ok(true)
  {
  }

  /** Editing an option that is not required never changes whether execute is enabled. */
  lemma OptionalEditIrrelevant(cat: Commands, st: FormState, key: string, value: string)
    requires Walk(cat, st.command, st.subCommand, st.action).Ok?
    requires RequiredOf(Walk(cat, st.command, st.subCommand, st.action).value).None?
      || key !in RequiredOf(Walk(cat, st.command, st.subCommand, st.action).value).value
    ensures ExecuteDisabled(cat, st.(options := Put(st.options, key, value))) == ExecuteDisabled(cat, st)
  {
    var edited := st.(options := Put(st.options, key, value));
    var w := Walk(cat, st.command, st.subCommand, st.action);
    assert Walk(cat, edited.command, edited.subCommand, edited.action) == w;
    if RequiredOf(w.value).Some? {
      var req := RequiredOf(w.value).value;
      forall n | n in req
        ensures Get(edited.options, n) == Get(st.options, n)
      {
        PutGet(st.options, key, value, n);
      }
      assert (forall n :: n in req ==> Filled(Get(edited.options, n)))
         == (forall n :: n in req ==> Filled(Get(st.options, n)));
    }
  }

  /** `"${v}"`: a value wrapped in double quotes, with no escaping. */
  function Quote(v: string): string
  {
    "\"" + v + "\""
  }

  /** The ` --key "value"` tokens of the edited options in edit order, skipping empty values. */
  function FlagTokens(opts: Dict<string>): seq<string>
  {
    if opts == [] then []
    else (if opts[0].1 != "" then ["--" + opts[0].0, Quote(opts[0].1)] else []) + FlagTokens(opts[1..])
  }

  /** The space-separated tokens of the command line `handleSubmit` builds. */
  function Tokens(st: FormState): seq<string>
  {
    LeadTokens(st) + FlagTokens(st.options) + PathTokens(st)
  }

  /** The program, the command, the subcommand and the action when one is selected. */
  function LeadTokens(st: FormState): seq<string>
  {
    ["fairscape-cli", st.command, st.subCommand] + (if st.action != "" then [st.action] else [])
  }

  /** The quoted path a `rocrate` or `schema` command ends with. */
  function PathTokens(st: FormState): seq<string>
  {
    (if st.command == "rocrate" then [Quote(st.rocratePath)] else [])
    + (if st.command == "schema" then [Quote(st.schemaFile)] else [])
  }

  /** The command string handed to the process runner. */
  function CommandLine(st: FormState): string
  {
    Join(Tokens(st), " ")
  }

  lemma {:induction false} FlagTokensSplit(opts: Dict<string>, i: nat)
    requires i < |opts|
    ensures FlagTokens(opts[..i + 1]) ==
      FlagTokens(opts[..i]) + (if opts[i].1 != "" then ["--" + opts[i].0, Quote(opts[i].1)] else [])
  {
    if i > 0 {
      FlagTokensSplit(opts[1..], i - 1);
      assert opts[1..][..i] == opts[..i + 1][1..];
      assert opts[1..][..i - 1] == opts[..i][1..];
    }
  }

  lemma {:induction false} JoinSnoc(ts: seq<string>, t: string, sep: string)
    requires ts != []
    ensures Join(ts + [t], sep) == Join(ts, sep) + sep + t
    decreases |ts|
  {
    if |ts| > 1 {
      JoinSnoc(ts[1..], t, sep);
      assert (ts + [t])[1..] == ts[1..] + [t];
    }
  }

  lemma {:induction false} JoinAppend(a: seq<string>, b: seq<string>, sep: string)
    requires a != [] && b != []
    ensures Join(a + b, sep) == Join(a, sep) + sep + Join(b, sep)
    decreases |a|
  {
    if |a| > 1 {
      JoinAppend(a[1..], b, sep);
      assert (a + b)[1..] == a[1..] + b;
    }
  }

  lemma Head3(a: string, b: string, c: string, sep: string)
    ensures Join([a, b, c], sep) == a + sep + b + sep + c
  {
    assert [b, c][1..] == [c];
    assert Join([b, c], sep) == b + sep + c;
    assert [a, b, c][1..] == [b, c];
  }

  /** A token whose text starts with "--" is a flag, never a quoted value. */
  lemma {:induction false} FlagPresentIff(opts: Dict<string>, key: string)
    requires UniqueKeys(opts)
    ensures ("--" + key in FlagTokens(opts)) <==> Get(opts, key).Some? && Get(opts, key).value != ""
  {
    if opts != [] {
      var head := if opts[0].1 != "" then ["--" + opts[0].0, Quote(opts[0].1)] else [];
      assert UniqueKeys(opts[1..]);
      FlagPresentIff(opts[1..], key);
      assert FlagTokens(opts) == head + FlagTokens(opts[1..]);
      assert Quote(opts[0].1)[0] == '"' && ("--" + key)[0] == '-';
      if opts[0].0 == key {
        assert key !in Keys(opts[1..]);
      }
      if "--" + key == "--" + opts[0].0 {
        assert key == ("--" + key)[2..] == ("--" + opts[0].0)[2..] == opts[0].0;
      }
    }
  }

  /**
   * The command line starts with the program, the command and the subcommand, then the action
   * only when one is selected.
   */
  lemma CommandLinePrefix(st: FormState)
    ensures StartsWith(CommandLine(st), "fairscape-cli " + st.command + " " + st.subCommand
                                      + (if st.action != "" then " " + st.action else ""))
  {
    var rest := FlagTokens(st.options) + PathTokens(st);
    assert Tokens(st) == LeadTokens(st) + rest;
    JoinPrefix(LeadTokens(st), rest, " ");
    LeadJoin(st);
  }

  /** The lead tokens joined with spaces. */
  lemma LeadJoin(st: FormState)
    ensures Join(LeadTokens(st), " ") == "fairscape-cli " + st.command + " " + st.subCommand
                                       + (if st.action != "" then " " + st.action else "")
  {
    var head := ["fairscape-cli", st.command, st.subCommand];
    Head3("fairscape-cli", st.command, st.subCommand, " ");
    if st.action != "" {
      JoinSnoc(head, st.action, " ");
    } else {
      assert LeadTokens(st) == head;
    }
  }

  /** Joining more tokens after a non-empty list only extends its joined text. */
  lemma JoinPrefix(pre: seq<string>, rest: seq<string>, sep: string)
    requires pre != []
    ensures StartsWith(Join(pre + rest, sep), Join(pre, sep))
  {
    if rest == [] {
      assert pre + rest == pre;
    } else {
      JoinAppend(pre, rest, sep);
      var p := Join(pre, sep);
      assert (p + sep + Join(rest, sep))[..|p|] == p;
    }
  }

  /** The command line of a `rocrate` or `schema` command ends with its quoted path. */
  lemma CommandLineSuffix(st: FormState)
    ensures st.command == "rocrate" ==> EndsWith(CommandLine(st), " " + Quote(st.rocratePath))
    ensures st.command == "schema" ==> EndsWith(CommandLine(st), " " + Quote(st.schemaFile))
  {
    var ts := LeadTokens(st) + FlagTokens(st.options);
    assert Tokens(st) == ts + PathTokens(st);
    PathStep(ts, st);
    var j := Join(ts, " ");
    if st.command == "rocrate" {
      SuffixEnds(j, " " + Quote(st.rocratePath));
    } else if st.command == "schema" {
      SuffixEnds(j, " " + Quote(st.schemaFile));
    }
  }

  lemma SuffixEnds(s: string, t: string)
    ensures EndsWith(s + t, t)
  {
    assert (s + t)[|s + t| - |t|..] == t;
  }

  /** The text one edited option adds to the command line: nothing for an empty value. */
  function FlagText(key: string, value: string): string
  {
    if value != "" then " --" + key + " " + Quote(value) else ""
  }

  /** The command line so far once the first `i` edited options are seen. */
  function FlaggedLine(head: seq<string>, opts: Dict<string>, i: nat): string
    requires i <= |opts|
  {
    Join(head + FlagTokens(opts[..i]), " ")
  }

  /** One more option adds ` --key "value"` to the joined text when its value is non-empty. */
  lemma FlagStep(head: seq<string>, opts: Dict<string>, i: nat)
    requires head != [] && i < |opts|
    ensures FlaggedLine(head, opts, i + 1) == FlaggedLine(head, opts, i) + FlagText(opts[i].0, opts[i].1)
  {
    FlagTokensSplit(opts, i);
    var ts := head + FlagTokens(opts[..i]);
    var key, value := opts[i].0, opts[i].1;
    if value != "" {
      var flag, quoted := "--" + key, Quote(value);
      assert head + FlagTokens(opts[..i + 1]) == ts + [flag] + [quoted];
      JoinSnoc(ts, flag, " ");
      JoinSnoc(ts + [flag], quoted, " ");
      FlagTextSpaced(Join(ts, " "), key, value);
    } else {
      assert head + FlagTokens(opts[..i + 1]) == ts;
    }
  }

  /** Appending the flag and the quoted value as two space-separated tokens appends `FlagText`. */
  lemma FlagTextSpaced(line: string, key: string, value: string)
    requires value != ""
    ensures line + " " + ("--" + key) + " " + Quote(value) == line + FlagText(key, value)
  {
  }

  /** The path token, when there is one, adds a space and the quoted path to the joined text. */
  lemma PathStep(ts: seq<string>, st: FormState)
    requires ts != []
    ensures Join(ts + PathTokens(st), " ") == Join(ts, " ")
      + (if st.command == "rocrate" then " " + Quote(st.rocratePath) else "")
      + (if st.command == "schema" then " " + Quote(st.schemaFile) else "")
  {
    if st.command == "rocrate" {
      assert PathTokens(st) == [Quote(st.rocratePath)];
      JoinSnoc(ts, Quote(st.rocratePath), " ");
    } else if st.command == "schema" {
      assert PathTokens(st) == [Quote(st.schemaFile)];
      JoinSnoc(ts, Quote(st.schemaFile), " ");
    } else {
      assert ts + PathTokens(st) == ts;
    }
  }

  /** The form state a React component instance keeps, and the handlers that update it. */
  class Engine {
    const commands: Commands
    var selectedCommand: string
    var selectedSubCommand: string
    var selectedAction: string
    var options: Dict<string>
    var rocratePath: string
    var schemaFile: string

    function State(): FormState
      reads this
    {
      FormState(selectedCommand, selectedSubCommand, selectedAction, options, rocratePath, schemaFile)
    }

    /** The option values form a JavaScript object, so no key occurs twice. */
    predicate Valid()
      reads this
    {
      UniqueKeys(options)
    }

    /** The state at mount: every field empty. */
    constructor(commands: Commands)
      ensures this.commands == commands
      ensures State() == FormState("", "", "", [], "", "")
      ensures Valid()
    {
      this.commands := commands;
      selectedCommand, selectedSubCommand, selectedAction := "", "", "";
      options := [];
      rocratePath, schemaFile := "", "";
    }

    /** `handleSubSubCommandSelect`: set the action and clear the option values. */
    method SelectAction(action: string)
      modifies this
      ensures selectedAction == action && options == [] && Valid()
      ensures selectedCommand == old(selectedCommand) && selectedSubCommand == old(selectedSubCommand)
      ensures rocratePath == old(rocratePath) && schemaFile == old(schemaFile)
    {
      selectedAction := action;
      options := [];
    }

    /**
     * `handleSubCommandSelect`. `renderedCommand` is the `selectedCommand` its closure captured at
     * the last render; the handler looks the subcommand up under that command, not under the current
     * field. Looking up a missing command or subcommand throws, after the writes before it.
     */
    method SelectSubCommand(renderedCommand: string, subCommand: string) returns (r: Outcome<JsError>)
      modifies this
      ensures selectedSubCommand == subCommand && options == [] && Valid()
      ensures selectedCommand == old(selectedCommand)
      ensures rocratePath == old(rocratePath) && schemaFile == old(schemaFile)
      ensures r == if ActionsAt(commands, renderedCommand, subCommand).Some? then Pass else Fail(TypeError)
      ensures selectedAction ==
        match ActionsAt(commands, renderedCommand, subCommand) case Some(acts) => SoleKey(acts) case None => ""
    {
      selectedSubCommand := subCommand;
      selectedAction := "";
      options := [];
      match ActionsAt(commands, renderedCommand, subCommand)
      case None =>
        r := Fail(TypeError);
      case Some(acts) =>
        if |acts| == 1 {
          SelectAction(acts[0].0);
        }
        r := Pass;
    }

    /**
     * `handleCommandSelect` as written: reset everything below the command and both path fields,
     * then auto-select a sole subcommand through a handler whose closure still holds the previous command.
     */
    method SelectCommand(command: string) returns (r: Outcome<JsError>)
      modifies this
      ensures selectedCommand == command && options == [] && rocratePath == "" && schemaFile == ""
      ensures Valid()
      ensures match Get(commands, command)
        case None => r == Fail(TypeError) && selectedSubCommand == "" && selectedAction == ""
        case Some(subs) =>
          if |subs| == 1 then
            && selectedSubCommand == subs[0].0
            && r == (if ActionsAt(commands, old(selectedCommand), subs[0].0).Some? then Pass else Fail(TypeError))
            && selectedAction ==
                 match ActionsAt(commands, old(selectedCommand), subs[0].0) case Some(acts) => SoleKey(acts) case None => ""
          else r == Pass && selectedSubCommand == "" && selectedAction == ""
    {
      var renderedCommand := selectedCommand;
      selectedCommand := command;
      selectedSubCommand := "";
      selectedAction := "";
      options := [];
      rocratePath := "";
      schemaFile := "";
      match Get(commands, command)
      case None =>
        r := Fail(TypeError);
      case Some(subs) =>
        if |subs| == 1 {
          r := SelectSubCommand(renderedCommand, subs[0].0);
        } else {
          r := Pass;
        }
    }

    /**
     * `handleCommandSelect` as evidently intended: the auto-selected subcommand is looked up under
     * the command just selected, so a sole subcommand and then its sole action are both selected.
     */
    method SelectCommandFixed(command: string) returns (r: Outcome<JsError>)
      modifies this
      ensures selectedCommand == command && options == [] && rocratePath == "" && schemaFile == ""
      ensures Valid()
      ensures Get(commands, command).None? ==> r == Fail(TypeError) && selectedSubCommand == "" && selectedAction == ""
      ensures Get(commands, command).Some? && |Get(commands, command).value| != 1 ==>
        r == Pass && selectedSubCommand == "" && selectedAction == ""
      ensures Get(commands, command).Some? && |Get(commands, command).value| == 1 ==>
        var sub := Get(commands, command).value[0];
        r == Pass && selectedSubCommand == sub.0 && selectedAction == SoleKey(sub.1)
    {
      selectedCommand := command;
      selectedSubCommand := "";
      selectedAction := "";
      options := [];
      rocratePath := "";
      schemaFile := "";
      match Get(commands, command)
      case None =>
        r := Fail(TypeError);
      case Some(subs) =>
        if |subs| == 1 {
          assert Get(subs, subs[0].0) == Some(subs[0].1);
          r := SelectSubCommand(command, subs[0].0);
        } else {
          r := Pass;
        }
    }

    /**
     * `handleOptionChange`: one key takes the new value, a new key going last; `Dict.PutGet` says
     * that every other option keeps its value.
     */
    method ChangeOption(option: string, value: string)
      requires Valid()
      modifies this
      ensures options == Put(old(options), option, value) && Valid()
      ensures Keys(options) == if option in Keys(old(options)) then Keys(old(options)) else Keys(old(options)) + [option]
      ensures selectedCommand == old(selectedCommand) && selectedSubCommand == old(selectedSubCommand)
      ensures selectedAction == old(selectedAction)
      ensures rocratePath == old(rocratePath) && schemaFile == old(schemaFile)
    {
      PutUnique(options, option, value);
      options := Put(options, option, value);
    }

    /** `handleRocratePathChange`. */
    method ChangeRocratePath(value: string)
      requires Valid()
      modifies this`rocratePath
      ensures rocratePath == value && Valid()
    {
      rocratePath := value;
    }

    /** `handleSchemaFileChange`. */
    method ChangeSchemaFile(value: string)
      requires Valid()
      modifies this`schemaFile
      ensures schemaFile == value && Valid()
    {
      schemaFile := value;
    }

    /** The options a mounted form holds have a `--key` token exactly when their value is non-empty. */
    lemma FlagPresentInState(key: string)
      requires Valid()
      ensures ("--" + key in FlagTokens(options)) <==> Get(options, key).Some? && Get(options, key).value != ""
    {
      FlagPresentIff(options, key);
    }

    /** The string `handleSubmit` builds before handing it to the process runner. */
    method BuildCommand() returns (cmd: string)
      ensures cmd == CommandLine(State())
    {
      ghost var st := State();
      var opts := options;
      cmd := "fairscape-cli " + selectedCommand + " " + selectedSubCommand;
      if selectedAction != "" {
        cmd := cmd + " " + selectedAction;
      }
      ghost var head := LeadTokens(st);
      LeadJoin(st);
      var i := 0;
      assert head + FlagTokens(opts[..0]) == head;
      while i < |opts|
        invariant 0 <= i <= |opts|
        invariant cmd == FlaggedLine(head, opts, i)
      {
        var (key, value) := opts[i];
        FlagStep(head, opts, i);
        if value != "" {
          cmd := cmd + " --" + key + " " + Quote(value);
        }
        i := i + 1;
      }
      assert opts[..i] == opts;
      ghost var flagged := FlaggedLine(head, opts, i);
      PathStep(head + FlagTokens(opts), st);
      if selectedCommand == "rocrate" {
        cmd := cmd + " " + Quote(rocratePath);
      }
      assert cmd == flagged + (if st.command == "rocrate" then " " + Quote(st.rocratePath) else "");
      if selectedCommand == "schema" {
        cmd := cmd + " " + Quote(schemaFile);
      }
      assert cmd == Join(head + FlagTokens(opts) + PathTokens(st), " ");
      assert head + FlagTokens(opts) + PathTokens(st) == Tokens(st);
    }
  }
}

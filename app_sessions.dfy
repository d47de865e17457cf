/**
 * Sessions of the form engine: a selection sequence that exposes the stale closure in
 * `handleCommandSelect`, and a tabular schema session on the shipped catalogue.
 */
module AppSessions {
  import opened Wrappers
  import opened Text
  import opened Dict
  import opened Catalogue
  import opened App

  /** A catalogue with one command, one subcommand under it and one action, so every level auto-selects. */
  const SingleChain: Commands := [("x", [("only", [("a", Leaf(Some(["n"]), Some(["n"])))])])]

  /**
   * Selecting the sole command of `SingleChain` from a fresh form: the handler as written looks the
   * sole subcommand up under the previous, empty command and throws after selecting "only", so no
   * action gets selected; the corrected handler selects the sole action "a".
   */
  method StaleClosureWitness() returns (asWritten: Outcome<JsError>, writtenAction: string,
                                        fixed: Outcome<JsError>, fixedAction: string)
    ensures asWritten == Fail(TypeError) && writtenAction == ""
    ensures fixed == Pass && fixedAction == "a"
  {
    var e := new Engine(SingleChain);
    asWritten := e.SelectCommand("x");
    writtenAction := e.selectedAction;
    var f := new Engine(SingleChain);
    fixed := f.SelectCommandFixed("x");
    fixedAction := f.selectedAction;
  }

  /** The form after a tabular schema session: three required options and the schema file filled. */
  const TabularSession: FormState :=
    FormState("schema", "create-tabular", "create",
              [("name", "demo"), ("description", "d"), ("separator", ",")], "", "s.json")

  /** The required names of `schema create-tabular create`. */
  const TabularRequired: seq<string> := ["name", "description", "separator"]

  /** The leaf of `schema create-tabular create` in the shipped catalogue. */
  const TabularCreate: Leaf := Leaf(Some(["name", "description", "guid", "separator", "header"]), Some(TabularRequired))

  lemma TabularLeaf()
    ensures LeafAt(Shipped, "schema", "create-tabular", "create", TabularCreate)
  {
    var subs := Shipped[1].1;
    var acts := subs[0].1;
    assert Shipped[0].0 != "schema";
    assert Get(Shipped, "schema") == Some(subs);
    assert Get(subs, "create-tabular") == Some(acts);
    assert Get(acts, "create") == Some(acts[0].1);
  }

  lemma SchemaHasThreeSubCommands()
    ensures Get(Shipped, "schema").Some? && |Get(Shipped, "schema").value| == 3
  {
    assert Shipped[0].0 != "schema";
    assert Get(Shipped, "schema") == Some(Shipped[1].1);
  }

  lemma TabularSoleAction()
    ensures ActionsAt(Shipped, "schema", "create-tabular").Some?
    ensures SoleKey(ActionsAt(Shipped, "schema", "create-tabular").value) == "create"
  {
    TabularLeaf();
    assert Get(Shipped, "schema") == Some(Shipped[1].1);
    assert Get(Shipped[1].1, "create-tabular") == Some(Shipped[1].1[0].1);
  }

  lemma TabularOptions()
    ensures Put(Put(Put([], "name", "demo"), "description", "d"), "separator", ",") == TabularSession.options
  {
    assert "name" != "description" && "name" != "separator" && "description" != "separator";
    assert Put([("name", "demo")], "description", "d") == [("name", "demo")] + Put([], "description", "d");
    var d2 := [("name", "demo"), ("description", "d")];
    assert d2[1..] == [("description", "d")];
    assert Put(d2, "separator", ",") == [d2[0]] + Put(d2[1..], "separator", ",");
  }

  /** A value whose first character is not whitespace is not blank. */
  lemma NonBlankByFirst(v: string)
    requires v != [] && !IsJsSpace(v[0])
    ensures NonBlank(v)
  {
  }

  /** Execute is enabled once the walk reaches a leaf whose required names and path are all non-blank. */
  lemma EnabledAtLeaf(cat: Commands, st: FormState, l: Leaf)
    requires Walk(cat, st.command, st.subCommand, st.action) == Ok(AtLeaf(l)) && l.required.Some?
    requires forall n :: n in l.required.value ==> Get(st.options, n).Some? && NonBlank(Get(st.options, n).value)
    requires st.command == "rocrate" ==> NonBlank(st.rocratePath)
    requires st.command == "schema" ==> NonBlank(st.schemaFile)
    ensures ExecuteDisabled(cat, st) == Ok(false)
  {
    ExecuteEnabledIff(cat, st);
  }

  /** The values the tabular session stores under its three option names. */
  lemma TabularValues()
    ensures Get(TabularSession.options, "name") == Some("demo")
    ensures Get(TabularSession.options, "description") == Some("d")
    ensures Get(TabularSession.options, "separator") == Some(",")
  {
    var opts := TabularSession.options;
    assert opts[0].0 == "name";
    assert opts[1..][0].0 == "description" && "description" != "name";
    assert opts[2..][0].0 == "separator" && "separator" != "name" && "separator" != "description";
    assert opts[1..][1..] == opts[2..];
  }

  /** The three required names of the tabular form hold non-blank values, and so does the schema file. */
  lemma TabularFilled()
    ensures forall n :: n in TabularRequired ==>
      Get(TabularSession.options, n).Some? && NonBlank(Get(TabularSession.options, n).value)
    ensures NonBlank(TabularSession.schemaFile)
  {
    TabularValues();
    NonBlankByFirst("demo");
    NonBlankByFirst("d");
    NonBlankByFirst(",");
    NonBlankByFirst("s.json");
    forall n | n in TabularRequired
      ensures Get(TabularSession.options, n).Some? && NonBlank(Get(TabularSession.options, n).value)
    {
      assert n == "name" || n == "description" || n == "separator";
    }
  }

  /** With the three required options and the schema file filled, execute is enabled. */
  lemma TabularSessionEnabled()
    ensures ExecuteDisabled(Shipped, TabularSession) == Ok(false)
  {
    TabularLeaf();
    WalkToLeaf(Shipped, "schema", "create-tabular", "create", TabularCreate);
    TabularFilled();
    EnabledAtLeaf(Shipped, TabularSession, TabularCreate);
  }

  lemma TabularFlags()
    ensures FlagTokens(TabularSession.options)
         == ["--name", "\"demo\"", "--description", "\"d\"", "--separator", "\",\""]
  {
    var o3 := [("separator", ",")];
    var o2 := [("description", "d")] + o3;
    var opts := [("name", "demo")] + o2;
    assert opts == TabularSession.options;
    assert "--" + "separator" == "--separator" && "--" + "description" == "--description";
    assert "--" + "name" == "--name";
    assert Quote(",") == "\",\"" && Quote("d") == "\"d\"" && Quote("demo") == "\"demo\"";
    assert FlagTokens(o3) == ["--separator", "\",\""] by {
      assert o3[1..] == [];
    }
    assert FlagTokens(o2) == ["--description", "\"d\"", "--separator", "\",\""] by {
      assert o2[1..] == o3;
    }
    assert opts[1..] == o2;
  }

  /** The words of the session's command line: the options in edit order, then the quoted schema file. */
  const TabularTokens: seq<string> :=
    ["fairscape-cli", "schema", "create-tabular", "create",
     "--name", "\"demo\"", "--description", "\"d\"", "--separator", "\",\"", "\"s.json\""]

  lemma TabularSessionTokens()
    ensures Tokens(TabularSession) == TabularTokens
  {
    TabularFlags();
    assert Quote("s.json") == "\"s.json\"";
  }

  /**
   * Opening the tabular schema form through the handlers on the shipped catalogue: `schema` has three
   * subcommands, so nothing below it is auto-selected; `create-tabular` has the sole action
   * `create`, which selecting it auto-selects.
   */
  method OpenTabularForm() returns (e: Engine)
    ensures fresh(e) && e.commands == Shipped
    ensures e.State() == FormState("schema", "create-tabular", "create", [], "", "")
  {
    e := new Engine(Shipped);
    var r := e.SelectCommand("schema");
    SchemaHasThreeSubCommands();
    assert e.selectedSubCommand == "" && e.selectedAction == "";
    r := e.SelectSubCommand("schema", "create-tabular");
    TabularSoleAction();
  }

  /** Filling the three required options and the schema file of the opened form. */
  method FillTabularForm(e: Engine)
    requires e.options == [] && e.selectedCommand == "schema" && e.selectedSubCommand == "create-tabular"
    requires e.selectedAction == "create" && e.rocratePath == ""
    modifies e
    ensures e.State() == TabularSession
  {
    e.ChangeOption("name", "demo");
    var o1 := e.options;
    e.ChangeOption("description", "d");
    var o2 := e.options;
    assert o2 == Put(o1, "description", "d");
    e.ChangeOption("separator", ",");
    assert e.options == Put(o2, "separator", ",");
    e.ChangeSchemaFile("s.json");
    TabularOptions();
    assert e.options == TabularSession.options;
  }

  /**
   * The tabular schema session: once the three required options and the schema file are filled,
   * execute is enabled and submitting builds the command line of `TabularTokens`.
   */
  method TabularSchemaSession() returns (disabled: Result<bool, JsError>, cmd: string)
    ensures disabled == Ok(false)
    ensures cmd == Join(TabularTokens, " ")
  {
    var e := OpenTabularForm();
    FillTabularForm(e);
    TabularSessionEnabled();
    TabularSessionTokens();
    disabled := ExecuteDisabled(Shipped, e.State());
    cmd := e.BuildCommand();
  }
}

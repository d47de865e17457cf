/**
 * The static command catalogue of the form front-end (the `commands` object of src/App.jsx)
 * and the way the form walks it: command -> subcommand -> action -> leaf descriptor.
 */
module Catalogue {
  import opened Wrappers
  import opened Dict

  /** A leaf descriptor: the option names shown in order, and the names that must be filled. */
  datatype Leaf = Leaf(options: Option<seq<string>>, required: Option<seq<string>>)

  type Actions = Dict<Leaf>
  type SubCommands = Dict<Actions>
  type Commands = Dict<SubCommands>

  /** The exception JavaScript raises when a property of `undefined` is read. */
  datatype JsError = TypeError

  /** The value held in the form's `currentOptions` while it walks the catalogue. */
  datatype Current =
    | Undefined
    | AtCommand(subCommands: SubCommands)
    | AtSubCommand(actions: Actions)
    | AtLeaf(leaf: Leaf)

  /** `currentOptions[key]`; reading a property of `undefined` throws. */
  function Index(cur: Current, key: string): Result<Current, JsError>
  {
    match cur
    case Undefined => Failure(TypeError)
    case AtCommand(subs) =>
      Ok(match Get(subs, key) case Some(acts) => AtSubCommand(acts) case None => Undefined)
    case AtSubCommand(acts) =>
      Ok(match Get(acts, key) case Some(l) => AtLeaf(l) case None => Undefined)
    case AtLeaf(_) => Ok(Undefined)
  }

  /**
   * The walk shared by `renderOptions` and `isExecuteDisabled`: start at `commands[command]`,
   * then index by the subcommand and by the action when each is a non-empty string.
   */
  function Walk(cat: Commands, command: string, subCommand: string, action: string): Result<Current, JsError>
  {
    var start := match Get(cat, command) case Some(subs) => AtCommand(subs) case None => Undefined;
    var afterSub := if subCommand != "" then Index(start, subCommand) else Ok(start);
    match afterSub
    case Failure(e) => Failure(e)
    case Ok(cur) => if action != "" then Index(cur, action) else Ok(cur)
  }

  /** `currentOptions.options`: only a leaf descriptor has one. */
  function OptionsOf(cur: Current): Option<seq<string>>
  {
    if cur.AtLeaf? then cur.leaf.options else None
  }

  /** `currentOptions.required`: only a leaf descriptor has one. */
  function RequiredOf(cur: Current): Option<seq<string>>
  {
    if cur.AtLeaf? then cur.leaf.required else None
  }

  /** A full path through the catalogue resolves to leaf `l`. */
  predicate LeafAt(cat: Commands, c: string, s: string, a: string, l: Leaf)
  {
    match Get(cat, c)
    case None => false
    case Some(subs) =>
      match Get(subs, s)
      case None => false
      case Some(acts) => Get(acts, a) == Some(l)
  }

  /** Both lists are present and every required name is one of the options. */
  predicate WellFormedLeaf(l: Leaf)
  {
    l.options.Some? && l.required.Some? && forall n :: n in l.required.value ==> n in l.options.value
  }

  predicate ActionsWellFormed(acts: Actions)
  {
    acts == [] || (WellFormedLeaf(acts[0].1) && ActionsWellFormed(acts[1..]))
  }

  predicate SubCommandsWellFormed(subs: SubCommands)
  {
    subs == [] || (ActionsWellFormed(subs[0].1) && SubCommandsWellFormed(subs[1..]))
  }

  predicate CommandsWellFormed(cat: Commands)
  {
    cat == [] || (SubCommandsWellFormed(cat[0].1) && CommandsWellFormed(cat[1..]))
  }

  lemma {:induction false} ActionsWellFormedAt(acts: Actions, a: string, l: Leaf)
    requires ActionsWellFormed(acts) && Get(acts, a) == Some(l)
    ensures WellFormedLeaf(l)
  {
    if acts[0].0 != a {
      ActionsWellFormedAt(acts[1..], a, l);
    }
  }

  lemma {:induction false} SubCommandsWellFormedAt(subs: SubCommands, s: string, acts: Actions)
    requires SubCommandsWellFormed(subs) && Get(subs, s) == Some(acts)
    ensures ActionsWellFormed(acts)
  {
    if subs[0].0 != s {
      SubCommandsWellFormedAt(subs[1..], s, acts);
    }
  }

  lemma {:induction false} CommandsWellFormedAt(cat: Commands, c: string, subs: SubCommands)
    requires CommandsWellFormed(cat) && Get(cat, c) == Some(subs)
    ensures SubCommandsWellFormed(subs)
  {
    if cat[0].0 != c {
      CommandsWellFormedAt(cat[1..], c, subs);
    }
  }

  /** In a well-formed catalogue every path that resolves ends at a well-formed leaf. */
  lemma WellFormedLeafAt(cat: Commands, c: string, s: string, a: string, l: Leaf)
    requires CommandsWellFormed(cat) && LeafAt(cat, c, s, a, l)
    ensures WellFormedLeaf(l)
  {
    var subs := Get(cat, c).value;
    CommandsWellFormedAt(cat, c, subs);
    var acts := Get(subs, s).value;
    SubCommandsWellFormedAt(subs, s, acts);
    ActionsWellFormedAt(acts, a, l);
  }

  /** The catalogue the desktop form ships with. */
  const Shipped: Commands := [
    ("rocrate", [
      ("create", [
        ("create", Leaf(
          Some(["guid", "name", "organization-name", "project-name", "description", "keywords"]),
          Some(["name", "organization-name", "project-name", "description", "keywords"])))]),
      ("add", [
        ("dataset", Leaf(
          Some(["guid", "name", "url", "author", "version", "date-published", "description",
                "keywords", "data-format", "source-filepath", "destination-filepath", "used-by",
                "derived-from", "schema", "associated-publication", "additional-documentation"]),
          Some(["name", "author", "version", "date-published", "description", "keywords",
                "data-format", "source-filepath", "destination-filepath"]))),
        ("software", Leaf(
          Some(["guid", "name", "author", "version", "description", "keywords", "file-format",
                "url", "source-filepath", "destination-filepath", "date-modified",
                "used-by-computation", "associated-publication", "additional-documentation"]),
          Some(["name", "author", "version", "description", "keywords", "file-format",
                "source-filepath", "destination-filepath", "date-modified"])))]),
      ("register", [
        ("computation", Leaf(
          Some(["guid", "name", "run-by", "command", "date-created", "description", "keywords",
                "used-software", "used-dataset", "generated"]),
          Some(["name", "run-by", "date-created", "description", "keywords"]))),
        ("dataset", Leaf(
          Some(["guid", "name", "url", "author", "version", "date-published", "description",
                "keywords", "data-format", "filepath", "used-by", "derived-from", "schema",
                "associated-publication", "additional-documentation"]),
          Some(["name", "author", "version", "date-published", "description", "keywords",
                "data-format", "filepath"]))),
        ("software", Leaf(
          Some(["guid", "name", "author", "version", "description", "keywords", "file-format",
                "url", "date-modified", "filepath", "used-by-computation", "associated-publication",
                "additional-documentation"]),
          Some(["name", "author", "version", "description", "keywords", "file-format"])))])]),
    ("schema", [
      ("create-tabular", [
        ("create", Leaf(
          Some(["name", "description", "guid", "separator", "header"]),
          Some(["name", "description", "separator"])))]),
      ("add-property", [
        ("string", Leaf(
          Some(["name", "index", "description", "value-url", "pattern"]),
          Some(["name", "index", "description"]))),
        ("number", Leaf(
          Some(["name", "index", "description", "value-url"]),
          Some(["name", "index", "description"]))),
        ("integer", Leaf(
          Some(["name", "index", "description", "value-url"]),
          Some(["name", "index", "description"]))),
        ("array", Leaf(
          Some(["name", "index", "description", "value-url", "items-datatype", "min-items",
                "max-items", "unique-items"]),
          Some(["name", "index", "description", "items-datatype"]))),
        ("boolean", Leaf(
          Some(["name", "index", "description", "value-url"]),
          Some(["name", "index", "description"])))]),
      ("validate", [
        ("validate", Leaf(Some(["data", "schema"]), Some(["data", "schema"])))])])
  ]

  /** Every leaf of the shipped catalogue has both lists, and its required names are among its options. */
  lemma ShippedRequiredWithinOptions(c: string, s: string, a: string, l: Leaf)
    requires LeafAt(Shipped, c, s, a, l)
    ensures l.options.Some? && l.required.Some?
    ensures forall n :: n in l.required.value ==> n in l.options.value
  {
    ShippedWellFormed();
    WellFormedLeafAt(Shipped, c, s, a, l);
  }

  lemma ShippedWellFormed()
    ensures CommandsWellFormed(Shipped)
  {
    RocrateWellFormed();
    SchemaWellFormed();
    assert CommandsWellFormed(Shipped[1..]);
  }

  /** Every `rocrate` leaf lists its required names among its options. */
  lemma RocrateWellFormed()
    ensures SubCommandsWellFormed(Shipped[0].1)
  {
    var subs := Shipped[0].1;
    RocrateCreateWellFormed();
    RocrateAddWellFormed();
    RocrateRegisterWellFormed();
    assert SubCommandsWellFormed(subs[2..]);
    assert SubCommandsWellFormed(subs[1..]);
  }

  /** The `rocrate create` leaves are well formed. */
  lemma RocrateCreateWellFormed()
    ensures ActionsWellFormed(Shipped[0].1[0].1)
  {
  }

  /** The `rocrate add` leaves are well formed. */
  lemma RocrateAddWellFormed()
    ensures ActionsWellFormed(Shipped[0].1[1].1)
  {
  }

  /** The `rocrate register` leaves are well formed. */
  lemma RocrateRegisterWellFormed()
    ensures ActionsWellFormed(Shipped[0].1[2].1)
  {
  }

  /** Every `schema` leaf lists its required names among its options. */
  lemma SchemaWellFormed()
    ensures SubCommandsWellFormed(Shipped[1].1)
  {
    var subs := Shipped[1].1;
    SchemaCreateTabularWellFormed();
    SchemaAddPropertyWellFormed();
    SchemaValidateWellFormed();
    assert SubCommandsWellFormed(subs[2..]);
    assert SubCommandsWellFormed(subs[1..]);
  }

  /** The `schema create-tabular` leaves are well formed. */
  lemma SchemaCreateTabularWellFormed()
    ensures ActionsWellFormed(Shipped[1].1[0].1)
  {
  }

  /** The `schema add-property` leaves are well formed. */
  lemma SchemaAddPropertyWellFormed()
    ensures ActionsWellFormed(Shipped[1].1[1].1)
  {
  }

  /** The `schema validate` leaves are well formed. */
  lemma SchemaValidateWellFormed()
    ensures ActionsWellFormed(Shipped[1].1[2].1)
  {
  }

  /** The actions under `commands[c][s]`, when both lookups succeed. */
  function ActionsAt(cat: Commands, c: string, s: string): Option<Actions>
  {
    match Get(cat, c)
    case None => None
    case Some(subs) => Get(subs, s)
  }

  /** The key a one-entry object offers for auto-selection, or "" when it has several or none. */
  function SoleKey<V>(d: Dict<V>): string
  {
    if |d| == 1 then d[0].0 else ""
  }

  /** No shipped command has a single subcommand, so selecting a command never auto-selects one. */
  lemma ShippedNoSingleSubCommand(c: string, subs: SubCommands)
    requires Get(Shipped, c) == Some(subs)
    ensures |subs| == 3
  {
    var i :| 0 <= i < |Shipped| && Shipped[i] == (c, subs);
    assert i == 0 || i == 1;
  }

  /** The three shipped subcommands with a single action, which selecting them auto-selects. */
  lemma ShippedSoleActions()
    ensures ActionsAt(Shipped, "rocrate", "create").Some?
    ensures SoleKey(ActionsAt(Shipped, "rocrate", "create").value) == "create"
    ensures ActionsAt(Shipped, "schema", "create-tabular").Some?
    ensures SoleKey(ActionsAt(Shipped, "schema", "create-tabular").value) == "create"
    ensures ActionsAt(Shipped, "schema", "validate").Some?
    ensures SoleKey(ActionsAt(Shipped, "schema", "validate").value) == "validate"
    ensures ActionsAt(Shipped, "rocrate", "add").Some? && |ActionsAt(Shipped, "rocrate", "add").value| == 2
    ensures ActionsAt(Shipped, "rocrate", "register").Some? && |ActionsAt(Shipped, "rocrate", "register").value| == 3
    ensures ActionsAt(Shipped, "schema", "add-property").Some? && |ActionsAt(Shipped, "schema", "add-property").value| == 5
  {
  }
}

/**
 * `renderOptions` (src/components/CommandForm.jsx, and its copy in src/App.jsx): which input
 * fields the form shows for the current selection, which of them are marked required, and the
 * value each one displays.
 */
module CommandForm {
  import opened Wrappers
  import opened Text
  import opened Dict
  import opened Catalogue
  import opened App

  /** The positional path input shown above the options: its caption and its value. */
  datatype PathField = PathField(caption: string, value: string)

  /** One option input: the option name, whether it carries the `*` marker and `required`, and its value. */
  datatype Field = Field(name: string, required: bool, value: string)

  datatype RenderedForm = RenderedForm(pathField: Option<PathField>, fields: seq<Field>)

  /** The path input a command shows: `ROCRATE_PATH` for `rocrate`, `SCHEMA_FILE` for `schema`. */
  function PathFieldOf(st: FormState): Option<PathField>
  {
    if st.command == "rocrate" then Some(PathField("ROCRATE_PATH", st.rocratePath))
    else if st.command == "schema" then Some(PathField("SCHEMA_FILE", st.schemaFile))
    else None
  }

  /**
   * The form shows a path field exactly for the commands whose command line ends with a quoted
   * path, and that path is the one the field shows: the form and `handleSubmit` agree.
   */
  lemma PathFieldAgrees(st: FormState)
    ensures PathFieldOf(st).Some? <==> PathTokens(st) != []
    ensures PathTokens(st) == match PathFieldOf(st) case Some(p) => [Quote(p.value)] case None => []
    ensures PathFieldOf(st).Some? ==> PathFieldOf(st).value.caption == (if st.command == "rocrate" then "ROCRATE_PATH" else "SCHEMA_FILE")
  {
  }

  /** `required && required.includes(name)`. */
  predicate MarkedRequired(required: Option<seq<string>>, name: string)
  {
    required.Some? && name in required.value
  }

  /** `options[name] || ""`: the edited value, or the empty string for an option never edited. */
  function Shown(opts: Dict<string>, name: string): string
  {
    match Get(opts, name) case Some(v) => v case None => ""
  }

  /**
   * `renderOptions()`: `None` for `null`, the form otherwise. The names shown are the leaf's
   * `options` list, or its `required` list when it has no `options`. Reading a property of
   * `undefined` while walking the catalogue throws.
   */
  function RenderOptions(cat: Commands, st: FormState): (r: Result<Option<RenderedForm>, JsError>)
    ensures r.Failure? <==> Walk(cat, st.command, st.subCommand, st.action).Failure?
  {
    match Walk(cat, st.command, st.subCommand, st.action)
    case Failure(e) => Failure(e)
    case Ok(cur) =>
      var options, required := OptionsOf(cur), RequiredOf(cur);
      if options.None? && required.None? then Ok(None)
      else
        var names := if options.Some? then options.value else required.value;
        Ok(Some(RenderedForm(PathFieldOf(st), Fields(names, required, st.options))))
  }

  /** `allOptions.map(...)`: one field per name, in the catalogue's order. */
  function Fields(names: seq<string>, required: Option<seq<string>>, opts: Dict<string>): (fs: seq<Field>)
    ensures |fs| == |names|
    ensures forall i :: 0 <= i < |names| ==>
      fs[i] == Field(names[i], MarkedRequired(required, names[i]), Shown(opts, names[i]))
  {
    if names == [] then []
    else
      [Field(names[0], MarkedRequired(required, names[0]), Shown(opts, names[0]))]
      + Fields(names[1..], required, opts)
  }

  /** The form is shown exactly when the selection reaches a leaf; no field is shown twice when the names are distinct. */
  lemma RenderedIffLeaf(cat: Commands, st: FormState)
    requires Walk(cat, st.command, st.subCommand, st.action).Ok?
    ensures RenderOptions(cat, st).value.Some? <==>
      var cur := Walk(cat, st.command, st.subCommand, st.action).value;
      cur.AtLeaf? && (cur.leaf.options.Some? || cur.leaf.required.Some?)
  {
  }

  /**
   * For a leaf whose required names are all among its options, the fields marked required are
   * exactly the required names, and every field shows the option's edited value or "".
   */
  lemma RequiredFieldsMarked(cat: Commands, st: FormState, l: Leaf)
    requires Walk(cat, st.command, st.subCommand, st.action) == Ok(AtLeaf(l))
    requires WellFormedLeaf(l)
    ensures RenderOptions(cat, st).Ok? && RenderOptions(cat, st).value.Some?
    ensures var form := RenderOptions(cat, st).value.value;
      && form.pathField == PathFieldOf(st)
      && (forall n :: n in l.required.value <==> exists f :: f in form.fields && f.name == n && f.required)
      && (forall f :: f in form.fields ==> f.name in l.options.value && f.value == Shown(st.options, f.name))
  {
    var form := RenderOptions(cat, st).value.value;
    var names := l.options.value;
    assert form.fields == Fields(names, l.required, st.options);
    forall n | n in l.required.value
      ensures exists f :: f in form.fields && f.name == n && f.required
    {
      var i :| 0 <= i < |names| && names[i] == n;
      assert form.fields[i].name == n && form.fields[i].required;
    }
    forall f | f in form.fields
      ensures f.name in l.options.value && f.value == Shown(st.options, f.name)
      ensures f.required ==> f.name in l.required.value
    {
      var i :| 0 <= i < |form.fields| && form.fields[i] == f;
    }
  }

  /** Every field marked required, and the path input when there is one, shows a non-blank value. */
  predicate FormComplete(form: RenderedForm)
  {
    && (forall f :: f in form.fields && f.required ==> Filled(Some(f.value)))
    && (form.pathField.Some? ==> Filled(Some(form.pathField.value.value)))
  }

  /**
   * The Execute button and the rendered form agree: at a leaf whose required names are all among
   * its options, execute is enabled exactly when every field the form marks required, and its
   * path input, show a non-blank value.
   */
  lemma ExecuteEnabledIffFormComplete(cat: Commands, st: FormState, l: Leaf)
    requires Walk(cat, st.command, st.subCommand, st.action) == Ok(AtLeaf(l))
    requires WellFormedLeaf(l)
    ensures ExecuteDisabled(cat, st) == Ok(false) <==> FormComplete(RenderOptions(cat, st).value.value)
  {
    RequiredFieldsMarked(cat, st, l);
    var form := RenderOptions(cat, st).value.value;
    forall n
      ensures Filled(Get(st.options, n)) <==> Filled(Some(Shown(st.options, n)))
    {
      if Get(st.options, n).None? {
        assert Trim("", IsJsSpace) == [];
      }
    }
    if FormComplete(form) {
      forall n | n in l.required.value
        ensures Filled(Get(st.options, n))
      {
        var f :| f in form.fields && f.name == n && f.required;
      }
    }
  }

  /** A selection that shows no form never enables Execute; one whose walk throws breaks both renders. */
  lemma NoFormDisabled(cat: Commands, st: FormState)
    ensures RenderOptions(cat, st).Failure? <==> ExecuteDisabled(cat, st).Failure?
    ensures RenderOptions(cat, st) == Ok(None) ==> ExecuteDisabled(cat, st) == Ok(true)
  {
  }

  /**
   * In a catalogue whose every leaf lists its required names among its options (the shipped one,
   * by `Catalogue.ShippedWellFormed`), every leaf's Execute button agrees with its rendered form.
   */
  lemma WellFormedExecuteMatchesForm(cat: Commands, st: FormState, l: Leaf)
    requires CommandsWellFormed(cat)
    requires LeafAt(cat, st.command, st.subCommand, st.action, l)
    requires st.subCommand != "" && st.action != ""
    ensures RenderOptions(cat, st).Ok? && RenderOptions(cat, st).value.Some?
    ensures ExecuteDisabled(cat, st) == Ok(false) <==> FormComplete(RenderOptions(cat, st).value.value)
  {
    WellFormedLeafAt(cat, st.command, st.subCommand, st.action, l);
    WalkToLeaf(cat, st.command, st.subCommand, st.action, l);
    RequiredFieldsMarked(cat, st, l);
    ExecuteEnabledIffFormComplete(cat, st, l);
  }
}

/** From a configuration to the variables that document it: which value each stands for, and what is said of it. */
module EnvExample {
  import opened Prelude
  import opened EnvSort
  import opened EnvTable
  import opened EnvUpdate
  import opened EnvFlatten

  // ---- looking a path up ----

  function FieldAt(fields: Fields, name: string): Option<Json> {
    match fields
    case NoFields => None
    case Field(n, value, more) => if n == name then Some(value) else FieldAt(more, name)
  }

  /** The value at a path of field names. */
  function At(json: Json, path: Path): Option<Json>
    decreases |path|
  {
    if path == [] then Some(json)
    else if !json.Obj? then None
    else match FieldAt(json.fields, path[0])
      case None => None
      case Some(value) => At(value, path[1..])
  }

  /** Nothing but an object has fields, so every other value is a leaf. */
  ghost predicate IsLeaf(json: Json, path: Path, value: Json) {
    At(json, path) == Some(value) && !value.Obj?
  }

  lemma {:induction false} LeafFound(json: Json, base: Path, path: Path, value: Json)
    requires IsLeaf(json, path, value)
    ensures Leaf(base + path, value) in Leaves(json, base)
    decreases json, 1
  {
    if path == [] {
      assert base + path == base;
    } else {
      FieldLeafFound(json.fields, base, path, value);
    }
  }

  lemma {:induction false} FieldLeafFound(fields: Fields, base: Path, path: Path, value: Json)
    requires path != [] && FieldAt(fields, path[0]).Some? && IsLeaf(FieldAt(fields, path[0]).value, path[1..], value)
    ensures Leaf(base + path, value) in FieldLeaves(fields, base)
    decreases fields, 0
  {
    if fields.name == path[0] {
      LeafFound(fields.value, base + [path[0]], path[1..], value);
      assert base + [path[0]] + path[1..] == base + path;
    } else {
      FieldLeafFound(fields.more, base, path, value);
    }
  }

  lemma {:induction false} LeafStands(json: Json, base: Path, leaf: Leaf)
    requires GoodJson(json) && leaf in Leaves(json, base)
    ensures base <= leaf.path && IsLeaf(json, leaf.path[|base|..], leaf.value)
    decreases json, 1
  {
    if json.Obj? {
      FieldLeafStands(json.fields, base, leaf);
    } else {
      assert leaf == Leaf(base, json);
      assert base[|base|..] == [];
    }
  }

  lemma {:induction false} FieldLeafStands(fields: Fields, base: Path, leaf: Leaf)
    requires GoodFields(fields) && leaf in FieldLeaves(fields, base)
    ensures base <= leaf.path && |base| < |leaf.path| && HasField(fields, leaf.path[|base|])
    ensures FieldAt(fields, leaf.path[|base|]).Some?
    ensures IsLeaf(FieldAt(fields, leaf.path[|base|]).value, leaf.path[|base| + 1..], leaf.value)
    ensures leaf.path[|base|..][1..] == leaf.path[|base| + 1..]
    decreases fields, 0
  {
    var below := base + [fields.name];
    if leaf in Leaves(fields.value, below) {
      LeafStands(fields.value, below, leaf);
      assert leaf.path[|base|] == below[|base|] == fields.name;
      assert base <= below <= leaf.path;
    } else {
      FieldLeafStands(fields.more, base, leaf);
    }
  }

  /** The leaves of a configuration are the values at its paths that are not objects. */
  lemma LeafIff(json: Json, path: Path, value: Json)
    requires GoodJson(json)
    ensures Leaf(path, value) in Leaves(json, []) <==> IsLeaf(json, path, value)
  {
    assert [] + path == path && path[0..] == path;
    if IsLeaf(json, path, value) {
      LeafFound(json, [], path, value);
    } else if Leaf(path, value) in Leaves(json, []) {
      LeafStands(json, [], Leaf(path, value));
    }
  }

  // ---- every value has its variable ----

  /** There is a value at the path, and it is not an object. */
  ghost predicate HasValue(json: Json, path: Path) {
    At(json, path).Some? && !At(json, path).value.Obj?
  }

  lemma ArrayIff(json: Json)
    requires GoodJson(json)
    ensures (forall i :: 0 <= i < |Leaves(json, [])| ==> !Leaves(json, [])[i].value.Arr?)
            <==> forall path :: HasValue(json, path) ==> !At(json, path).value.Arr?
  {
    var leaves := Leaves(json, []);
    if i :| 0 <= i < |leaves| && leaves[i].value.Arr? {
      LeafIff(json, leaves[i].path, leaves[i].value);
      assert HasValue(json, leaves[i].path);
    } else {
      forall path | HasValue(json, path) ensures !At(json, path).value.Arr? {
        LeafIff(json, path, At(json, path).value);
        var i :| 0 <= i < |leaves| && leaves[i] == Leaf(path, At(json, path).value);
      }
    }
  }

  lemma ValueHeld(cs: Casing, json: Json, prefix: string, vars: Vars, path: Path)
    requires GoodJson(json) && Faithful(cs, vars, prefix, Leaves(json, [])) && HasValue(json, path)
    ensures EnvName(cs, prefix, path) in vars && IsText(At(json, path).value, vars[EnvName(cs, prefix, path)])
  {
    LeafIff(json, path, At(json, path).value);
    var leaves := Leaves(json, []);
    var i :| 0 <= i < |leaves| && leaves[i] == Leaf(path, At(json, path).value);
    assert HoldsLeaf(cs, vars, prefix, leaves[i]);
  }

  lemma NameStands(cs: Casing, json: Json, prefix: string, vars: Vars, name: string)
    requires GoodJson(json) && Faithful(cs, vars, prefix, Leaves(json, [])) && name in vars
    ensures exists path :: HasValue(json, path) && EnvName(cs, prefix, path) == name
  {
    var leaves := Leaves(json, []);
    assert NamesLeaf(cs, prefix, leaves, name);
    var i :| 0 <= i < |leaves| && EnvName(cs, prefix, leaves[i].path) == name;
    LeafIff(json, leaves[i].path, leaves[i].value);
    assert HasValue(json, leaves[i].path);
  }

  /** With good field names: flattening fails precisely if there is an array at some path; otherwise the value at every
      path that is not an object has its text in the variable named after the path, and there is no other variable. */
  lemma ValuesKept(cs: Casing, json: Json, prefix: string)
    requires GoodJson(json)
    ensures Flatten(cs, json, prefix).Some? <==> forall path :: HasValue(json, path) ==> !At(json, path).value.Arr?
    ensures Flatten(cs, json, prefix).Some? ==>
              var vars := Flatten(cs, json, prefix).value;
              && (forall path :: HasValue(json, path) ==>
                    EnvName(cs, prefix, path) in vars && IsText(At(json, path).value, vars[EnvName(cs, prefix, path)]))
              && (forall name :: name in vars ==> exists path :: HasValue(json, path) && EnvName(cs, prefix, path) == name)
  {
    NoLeafLost(cs, json, prefix);
    ArrayIff(json);
    if Flatten(cs, json, prefix).Some? {
      var vars := Flatten(cs, json, prefix).value;
      forall path | HasValue(json, path)
        ensures EnvName(cs, prefix, path) in vars
        ensures IsText(At(json, path).value, vars[EnvName(cs, prefix, path)])
      {
        ValueHeld(cs, json, prefix, vars, path);
      }
      forall name | name in vars ensures exists path :: HasValue(json, path) && EnvName(cs, prefix, path) == name {
        NameStands(cs, json, prefix, vars, name);
      }
    }
  }

  // ---- the variables of an example configuration ----

  function Describe(value: string, byDefault: Option<string>): string {
    if value == "" || value == (match byDefault case None => "" case Some(d) => d) then ""
    else "e.g. `" + value + "`"
  }

  function ExampleVariable(key: string, value: string, byDefault: Option<string>): EnvVariable {
    EnvVariable(key, Describe(value, byDefault), byDefault.None?,
                match byDefault case None => None case Some(d) => Some("`" + d + "`"), None)
  }

  /** The variables of a flattened configuration that pass the filter; `defaultAt` gives the text of the default
      at a dotted path, if the setting has one. */
  function FromExample(cs: Casing, flat: Vars, prefix: string, keep: string -> bool,
                       defaultAt: string -> Option<string>): Envs
  {
    map key | key in flat && keep(key) ::
      ExampleVariable(key, flat[key], defaultAt(FromKeyToJsonPath(cs, key, prefix)))
  }

  lemma ExampleVariableClean(key: string, value: string, byDefault: Option<string>)
    requires All(key, KeyChar) && All(value, NotPipe) && (byDefault.Some? ==> All(byDefault.value, NotPipe))
    ensures CleanVariable(ExampleVariable(key, value, byDefault))
  {
  }

  /** Variables built from a configuration can be documented and read back, if no text holds a pipe. */
  lemma ExampleIsConfig(cs: Casing, flat: Vars, prefix: string, keep: string -> bool,
                        defaultAt: string -> Option<string>)
    requires forall key :: key in flat ==> All(key, KeyChar) && FilterAscii(key) == key && All(flat[key], NotPipe)
    requires forall path :: defaultAt(path).Some? ==> All(defaultAt(path).value, NotPipe)
    ensures FromConfig(FromExample(cs, flat, prefix, keep, defaultAt))
  {
    forall key | key in flat
      ensures CleanVariable(ExampleVariable(key, flat[key], defaultAt(FromKeyToJsonPath(cs, key, prefix))))
    {
      ExampleVariableClean(key, flat[key], defaultAt(FromKeyToJsonPath(cs, key, prefix)));
    }
  }

  /** What the documentation says of the value `v` at a path, given the text of its default if it has one: it is
      required precisely if it has none, the default stands in backticks, and the value is given as an example unless it
      is empty or the default itself. */
  ghost predicate Tells(e: EnvVariable, name: string, v: Json, byDefault: Option<string>) {
    && e.key == name && e.tableIndex.None?
    && (e.required <==> byDefault.None?)
    && (byDefault.None? ==> e.defaultValue.None?)
    && (byDefault.Some? ==> e.defaultValue == Some("`" + byDefault.value + "`"))
    && forall text :: IsText(v, text) ==>
         e.description == if text == "" || byDefault == Some(text) then "" else "e.g. `" + text + "`"
  }

  /** From a configuration with good field names to its documentation: the value at every path, if its variable passes
      the filter, is documented under the name of the path and against the default at that same path. The path must not
      begin with the prefix, which would be stripped twice. */
  lemma ExampleTells(cs: Casing, json: Json, prefix: string, keep: string -> bool, defaultAt: string -> Option<string>,
                     path: Path)
    requires GoodJson(json) && Flatten(cs, json, prefix).Some? && cs.upper(prefix) == prefix
    requires path != [] && HasValue(json, path)
    requires !(prefix + "__" <= ToUpper(JoinPath(path)))
    ensures var vars := FromExample(cs, Flatten(cs, json, prefix).value, prefix, keep, defaultAt);
            var name := EnvName(cs, prefix, path);
            && (name in vars <==> keep(name))
            && (keep(name) ==> Tells(vars[name], name, At(json, path).value, defaultAt(Dotted(path))))
  {
    var flat, name := Flatten(cs, json, prefix).value, EnvName(cs, prefix, path);
    NoLeafLost(cs, json, prefix);
    ValueHeld(cs, json, prefix, flat, path);
    PathIsGood(json, path);
    PathRecoveredIff(cs, prefix, path);
    VariableTells(name, At(json, path).value, flat[name], defaultAt(Dotted(path)));
  }

  lemma VariableTells(name: string, v: Json, text: string, byDefault: Option<string>)
    requires IsText(v, text)
    ensures Tells(ExampleVariable(name, text, byDefault), name, v, byDefault)
  {
  }

  /** Nothing else is documented: every variable passes the filter and is named after the path of a value. */
  lemma ExampleOnly(cs: Casing, json: Json, prefix: string, keep: string -> bool, defaultAt: string -> Option<string>,
                    name: string)
    requires GoodJson(json) && Flatten(cs, json, prefix).Some?
    requires name in FromExample(cs, Flatten(cs, json, prefix).value, prefix, keep, defaultAt)
    ensures keep(name) && exists path :: HasValue(json, path) && EnvName(cs, prefix, path) == name
  {
    NoLeafLost(cs, json, prefix);
    NameStands(cs, json, prefix, Flatten(cs, json, prefix).value, name);
  }

  lemma {:induction false} PathIsGood(json: Json, path: Path)
    requires GoodJson(json) && At(json, path).Some?
    ensures GoodPath(path)
    decreases |path|
  {
    if path != [] {
      FieldIsGood(json.fields, path[0]);
      PathIsGood(FieldAt(json.fields, path[0]).value, path[1..]);
      assert path == [path[0]] + path[1..];
    }
  }

  lemma {:induction false} FieldIsGood(fields: Fields, name: string)
    requires GoodFields(fields) && FieldAt(fields, name).Some?
    ensures GoodName(name) && GoodJson(FieldAt(fields, name).value)
    decreases fields
  {
    if fields.name != name {
      FieldIsGood(fields.more, name);
    }
  }
}

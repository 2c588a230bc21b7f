/** Names of the variables a configuration is read from: flattening its JSON form, and the way back. */
module EnvFlatten {
  import opened Prelude
  import opened EnvSort
  import opened EnvTable

  /** A JSON value; a number is kept as its text. */
  datatype Json = Null | Bool(b: bool) | Number(text: string) | Text(s: string) | Arr(items: seq<Json>)
                | Obj(fields: Fields)

  /** The members of an object, in iteration order. */
  datatype Fields = NoFields | Field(name: string, value: Json, more: Fields)

  type Path = seq<string>

  /** A value that is not an object, and where it stands. */
  datatype Leaf = Leaf(path: Path, value: Json)

  type Vars = map<string, string>

  // ---- case mapping ----

  datatype CaseMaps = CaseMaps(upper: string -> string, lower: string -> string)

  predicate Ascii(s: string) {
    forall i :: 0 <= i < |s| ==> IsAscii(s[i])
  }

  /** Upper case is taken character by character. */
  ghost predicate Splits(cs: CaseMaps, a: string, b: string) {
    cs.upper(a + b) == cs.upper(a) + cs.upper(b)
  }

  ghost predicate OnAscii(cs: CaseMaps, s: string) {
    Ascii(s) ==> cs.upper(s) == ToUpper(s) && cs.lower(s) == ToLower(s)
  }

  ghost predicate Lawful(cs: CaseMaps) {
    (forall a, b :: Splits(cs, a, b)) && (forall s :: OnAscii(cs, s))
  }

  ghost function AsciiCaseMaps(): (cs: CaseMaps)
    ensures Lawful(cs)
  {
    var cs := CaseMaps((s: string) => ToUpper(s), (s: string) => ToLower(s));
    assert forall a, b :: Splits(cs, a, b) by {
      forall a, b ensures Splits(cs, a, b) {
        UpperConcat(a, b);
      }
    }
    cs
  }

  /** The Unicode case mapping. Of characters outside ASCII nothing is known but that upper case is taken one by one. */
  type Casing = cs: CaseMaps | Lawful(cs) ghost witness AsciiCaseMaps()

  lemma UpperSplits(cs: Casing, a: string, b: string)
    ensures cs.upper(a + b) == cs.upper(a) + cs.upper(b)
  {
    assert Splits(cs, a, b);
  }

  lemma AsciiCase(cs: Casing, s: string)
    requires Ascii(s)
    ensures cs.upper(s) == ToUpper(s) && cs.lower(s) == ToLower(s)
  {
    assert OnAscii(cs, s);
  }

  /** The text of a scalar; the original panics on anything else. */
  function EnvValue(json: Json): Option<string> {
    match json
    case Null => Some("null")
    case Bool(b) => Some(if b then "true" else "false")
    case Number(text) => Some(text)
    case Text(s) => Some(s)
    case Arr(_) => None
    case Obj(_) => None
  }

  function Step(prefix: string, key: string): string {
    if prefix == "" then key else prefix + "__" + key
  }

  // ---- flattening ----

  function Leaves(json: Json, path: Path): seq<Leaf> {
    match json
    case Obj(fields) => FieldLeaves(fields, path)
    case _ => [Leaf(path, json)]
  }

  function FieldLeaves(fields: Fields, path: Path): seq<Leaf> {
    match fields
    case NoFields => []
    case Field(name, value, more) => Leaves(value, path + [name]) + FieldLeaves(more, path)
  }

  /** The name built along a path. */
  function NameOf(prefix: string, path: Path): string {
    if path == [] then prefix else Step(NameOf(prefix, path[..|path| - 1]), path[|path| - 1])
  }

  function EnvName(cs: Casing, prefix: string, path: Path): string {
    cs.upper(NameOf(prefix, path))
  }

  /** Inserting the leaves one by one; fails on an array. */
  function InsertLeaves(cs: Casing, vars: Vars, prefix: string, leaves: seq<Leaf>): Option<Vars>
    decreases |leaves|
  {
    if leaves == [] then Some(vars)
    else match EnvValue(leaves[0].value)
      case None => None
      case Some(text) => InsertLeaves(cs, vars[EnvName(cs, prefix, leaves[0].path) := text], prefix, leaves[1..])
  }

  function Flatten(cs: Casing, json: Json, prefix: string): Option<Vars> {
    InsertLeaves(cs, map[], prefix, Leaves(json, []))
  }

  lemma {:induction false} InsertConcat(cs: Casing, vars: Vars, prefix: string, a: seq<Leaf>, b: seq<Leaf>)
    ensures InsertLeaves(cs, vars, prefix, a + b)
            == match InsertLeaves(cs, vars, prefix, a) case None => None case Some(v) => InsertLeaves(cs, v, prefix, b)
    decreases |a|
  {
    if a == [] {
      assert a + b == b;
    } else {
      assert (a + b)[0] == a[0] && (a + b)[1..] == a[1..] + b;
      match EnvValue(a[0].value) {
        case None =>
        case Some(text) => InsertConcat(cs, vars[EnvName(cs, prefix, a[0].path) := text], prefix, a[1..], b);
      }
    }
  }

  /** The recursive walk that carries the name built so far instead of the path. */
  method FlatJson(cs: Casing, json: Json, name: string, vars: Vars, ghost prefix: string, ghost path: Path)
    returns (r: Option<Vars>)
    requires name == NameOf(prefix, path)
    ensures r == InsertLeaves(cs, vars, prefix, Leaves(json, path))
    decreases json
  {
    match json {
      case Obj(fields) =>
        var rest := fields;
        r := Some(vars);
        while rest.Field? && r.Some?
          invariant rest < json
          invariant InsertLeaves(cs, vars, prefix, Leaves(json, path))
                    == match r case None => None case Some(v) => InsertLeaves(cs, v, prefix, FieldLeaves(rest, path))
          decreases rest
        {
          ghost var below := path + [rest.name];
          assert below[..|below| - 1] == path;
          InsertConcat(cs, r.value, prefix, Leaves(rest.value, below), FieldLeaves(rest.more, path));
          r := FlatJson(cs, rest.value, Step(name, rest.name), r.value, prefix, below);
          rest := rest.more;
        }
      case _ =>
        match EnvValue(json) {
          case None => r := None;
          case Some(text) => r := Some(vars[cs.upper(name) := text]);
        }
        assert Leaves(json, path) == [Leaf(path, json)];
    }
  }

  method FlattenJson(cs: Casing, json: Json, prefix: string) returns (r: Option<Vars>)
    ensures r == Flatten(cs, json, prefix)
  {
    r := FlatJson(cs, json, prefix, map[], prefix, []);
  }

  // ---- good names ----

  predicate NoUpper(s: string) {
    forall i :: 0 <= i < |s| ==> !('A' <= s[i] <= 'Z')
  }

  /** No double underscore, and none at the end. */
  predicate Plain(s: string) {
    && (forall i :: 0 <= i < |s| - 1 ==> s[i] != '_' || s[i + 1] != '_')
    && (s != "" ==> s[|s| - 1] != '_')
  }

  predicate GoodName(s: string) {
    s != "" && s[0] != '_' && Plain(s) && NoUpper(s) && Ascii(s)
  }

  /** ASCII without capital letters, no underscore at either end, no two in a row. */
  lemma GoodNameIff(s: string)
    ensures GoodName(s)
            <==> && s != "" && s[0] != '_' && s[|s| - 1] != '_'
                 && (forall i :: 0 <= i < |s| ==> s[i] as int < 128 && !('A' <= s[i] <= 'Z'))
                 && !exists a, b :: s == a + "__" + b
  {
    if i :| 0 <= i < |s| - 1 && s[i] == '_' && s[i + 1] == '_' {
      assert s == s[..i] + "__" + s[i + 2..];
    }
    if a, b :| s == a + "__" + b {
      assert s[|a|] == '_' && s[|a| + 1] == '_';
    }
  }

  predicate GoodPath(path: Path) {
    forall i :: 0 <= i < |path| ==> GoodName(path[i])
  }

  /** Field names are good and occur once per object, at every level. */
  predicate GoodJson(json: Json) {
    json.Obj? ==> GoodFields(json.fields)
  }

  predicate GoodFields(fields: Fields) {
    fields.Field? ==> GoodName(fields.name) && !HasField(fields.more, fields.name)
                      && GoodJson(fields.value) && GoodFields(fields.more)
  }

  predicate HasField(fields: Fields, name: string) {
    fields.Field? && (fields.name == name || HasField(fields.more, name))
  }

  function JoinPath(path: Path): string {
    if path == [] then "" else if |path| == 1 then path[0] else path[0] + Tail(path[1..])
  }

  /** Every name preceded by the separator. */
  function Tail(path: Path): string {
    if path == [] then "" else "__" + path[0] + Tail(path[1..])
  }

  lemma JoinPathHead(path: Path)
    requires path != []
    ensures JoinPath(path) == path[0] + Tail(path[1..])
  {
    assert |path| == 1 ==> path[0] + Tail(path[1..]) == path[0];
  }

  lemma {:induction false} TailSnoc(path: Path, last: string)
    ensures Tail(path + [last]) == Tail(path) + "__" + last
  {
    if path == [] {
      assert path + [last] == [last] && [last][1..] == [];
    } else {
      assert (path + [last])[0] == path[0] && (path + [last])[1..] == path[1..] + [last];
      TailSnoc(path[1..], last);
    }
  }

  /** The name built along a path is the prefix followed by the separated names. */
  lemma {:induction false} NameOfPrefixed(prefix: string, path: Path)
    requires prefix != ""
    ensures NameOf(prefix, path) == prefix + Tail(path)
  {
    if path != [] {
      var n := |path| - 1;
      NameOfPrefixed(prefix, path[..n]);
      TailSnoc(path[..n], path[n]);
      assert path[..n] + [path[n]] == path;
    }
  }

  lemma {:induction false} NameOfBare(path: Path)
    requires GoodPath(path)
    ensures NameOf("", path) == JoinPath(path) && (path != [] ==> NameOf("", path) != "")
  {
    if path != [] {
      var n := |path| - 1;
      NameOfBare(path[..n]);
      JoinPathHead(path);
      if n > 0 {
        JoinPathHead(path[..n]);
        TailSnoc(path[1..n], path[n]);
        assert path[1..n] + [path[n]] == path[1..] && path[..n][1..] == path[1..n];
      }
    }
  }

  /** A good name followed by nothing or a separator can be told from what follows it. */
  lemma HeadUnique(a: string, r: string, b: string, q: string)
    requires GoodName(a) && GoodName(b) && a + r == b + q
    requires (r == "" || "__" <= r) && (q == "" || "__" <= q)
    ensures a == b && r == q
  {
    NotLonger(a, r, b, q);
    NotLonger(b, q, a, r);
    assert a == (a + r)[..|a|] && b == (b + q)[..|b|];
    assert r == (a + r)[|a|..] && q == (b + q)[|b|..];
  }

  lemma NotLonger(a: string, r: string, b: string, q: string)
    requires Plain(b) && a + r == b + q && (r == "" || "__" <= r)
    ensures |b| <= |a|
  {
    var n := |a|;
    assert |a + r| == |b + q|;
    assert |r| >= 2 ==> (b + q)[n] == (a + r)[n] == '_' && (b + q)[n + 1] == (a + r)[n + 1] == '_';
  }

  lemma {:induction false} TailInjective(p: Path, q: Path)
    requires GoodPath(p) && GoodPath(q) && Tail(p) == Tail(q)
    ensures p == q
  {
    if p != [] && q != [] {
      var a, b := p[0] + Tail(p[1..]), q[0] + Tail(q[1..]);
      assert Tail(p) == "__" + a && Tail(q) == "__" + b;
      assert a == ("__" + a)[2..] && b == ("__" + b)[2..];
      HeadUnique(p[0], Tail(p[1..]), q[0], Tail(q[1..]));
      TailInjective(p[1..], q[1..]);
      assert p == [p[0]] + p[1..] && q == [q[0]] + q[1..];
    }
  }

  lemma JoinInjective(p: Path, q: Path)
    requires GoodPath(p) && GoodPath(q) && JoinPath(p) == JoinPath(q)
    ensures p == q
  {
    if p != [] && q != [] {
      JoinPathHead(p);
      JoinPathHead(q);
      HeadUnique(p[0], Tail(p[1..]), q[0], Tail(q[1..]));
      TailInjective(p[1..], q[1..]);
      assert p == [p[0]] + p[1..] && q == [q[0]] + q[1..];
    } else if p != [] {
      JoinPathHead(p);
    } else if q != [] {
      JoinPathHead(q);
    }
  }

  // ---- case ----

  lemma LowerOfUpper(s: string)
    requires NoUpper(s)
    ensures ToLower(ToUpper(s)) == s
  {
  }

  lemma UpperConcat(a: string, b: string)
    ensures ToUpper(a + b) == ToUpper(a) + ToUpper(b)
  {
  }

  lemma {:induction false} TailNoUpper(path: Path)
    requires GoodPath(path)
    ensures NoUpper(Tail(path)) && Ascii(Tail(path))
  {
    if path != [] {
      TailNoUpper(path[1..]);
    }
  }

  lemma JoinNoUpper(path: Path)
    requires GoodPath(path)
    ensures NoUpper(JoinPath(path)) && Ascii(JoinPath(path))
  {
    if path != [] {
      JoinPathHead(path);
      TailNoUpper(path[1..]);
    }
  }

  /** Two paths of good names never share a variable name, whatever the prefix. */
  lemma EnvNameInjective(cs: Casing, prefix: string, p: Path, q: Path)
    requires GoodPath(p) && GoodPath(q) && EnvName(cs, prefix, p) == EnvName(cs, prefix, q)
    ensures p == q
  {
    if prefix == "" {
      NameOfBare(p);
      NameOfBare(q);
      JoinNoUpper(p);
      JoinNoUpper(q);
      AsciiCase(cs, JoinPath(p));
      AsciiCase(cs, JoinPath(q));
      LowerOfUpper(JoinPath(p));
      LowerOfUpper(JoinPath(q));
      JoinInjective(p, q);
    } else {
      TailOfName(cs, prefix, p);
      TailOfName(cs, prefix, q);
      TailInjective(p, q);
    }
  }

  /** The separated names can be recovered from the variable name. */
  lemma TailOfName(cs: Casing, prefix: string, path: Path)
    requires prefix != "" && GoodPath(path)
    ensures |cs.upper(prefix)| <= |EnvName(cs, prefix, path)|
    ensures ToLower(EnvName(cs, prefix, path)[|cs.upper(prefix)|..]) == Tail(path)
  {
    NameOfPrefixed(prefix, path);
    UpperSplits(cs, prefix, Tail(path));
    TailNoUpper(path);
    AsciiCase(cs, Tail(path));
    LowerOfUpper(Tail(path));
    var u, t := cs.upper(prefix), ToUpper(Tail(path));
    assert (u + t)[|u|..] == t;
  }

  // ---- no leaf is lost ----

  /** Below `path`: the path of a leaf starts with it, continues with good names, and ends at a scalar or array. */
  ghost predicate LeafBelow(leaf: Leaf, path: Path) {
    path <= leaf.path && GoodPath(leaf.path) && !leaf.value.Obj?
  }

  ghost predicate DistinctPaths(leaves: seq<Leaf>) {
    forall i, j :: 0 <= i < j < |leaves| ==> leaves[i].path != leaves[j].path
  }

  lemma {:induction false} LeavesOk(json: Json, path: Path)
    requires GoodJson(json) && GoodPath(path)
    ensures forall i :: 0 <= i < |Leaves(json, path)| ==> LeafBelow(Leaves(json, path)[i], path)
    ensures DistinctPaths(Leaves(json, path))
    decreases json
  {
    if json.Obj? {
      FieldLeavesOk(json.fields, path);
    }
  }

  /** A leaf of an object stands under one of its fields. */
  ghost predicate UnderField(leaf: Leaf, fields: Fields, path: Path) {
    LeafBelow(leaf, path) && |leaf.path| > |path| && HasField(fields, leaf.path[|path|])
  }

  lemma {:induction false} FieldLeavesOk(fields: Fields, path: Path)
    requires GoodFields(fields) && GoodPath(path)
    ensures forall i :: 0 <= i < |FieldLeaves(fields, path)| ==> UnderField(FieldLeaves(fields, path)[i], fields, path)
    ensures DistinctPaths(FieldLeaves(fields, path))
    decreases fields
  {
    if fields.Field? {
      var a, b := Leaves(fields.value, path + [fields.name]), FieldLeaves(fields.more, path);
      LeavesOk(fields.value, path + [fields.name]);
      FieldLeavesOk(fields.more, path);
      forall i | 0 <= i < |a| ensures UnderField(a[i], fields, path) && a[i].path[|path|] == fields.name {
        assert LeafBelow(a[i], path + [fields.name]);
      }
      forall i, j | 0 <= i < |a| && 0 <= j < |b| ensures a[i].path != b[j].path {
        assert UnderField(b[j], fields.more, path);
      }
    }
  }

  ghost predicate NamesLeaf(cs: Casing, prefix: string, leaves: seq<Leaf>, name: string) {
    exists i :: 0 <= i < |leaves| && EnvName(cs, prefix, leaves[i].path) == name
  }

  /** The text that stands for a scalar. */
  ghost predicate IsText(value: Json, text: string) {
    && !value.Arr? && !value.Obj?
    && (value == Null ==> text == "null") && (value == Bool(true) ==> text == "true")
    && (value == Bool(false) ==> text == "false") && (value.Number? ==> text == value.text)
    && (value.Text? ==> text == value.s)
  }

  ghost predicate HoldsLeaf(cs: Casing, vars: Vars, prefix: string, leaf: Leaf) {
    EnvName(cs, prefix, leaf.path) in vars && IsText(leaf.value, vars[EnvName(cs, prefix, leaf.path)])
  }

  /** What the variables must hold: one entry per leaf, nothing else. */
  ghost predicate Faithful(cs: Casing, vars: Vars, prefix: string, leaves: seq<Leaf>) {
    && |vars| == |leaves|
    && (forall i :: 0 <= i < |leaves| ==> HoldsLeaf(cs, vars, prefix, leaves[i]))
    && forall name :: name in vars ==> NamesLeaf(cs, prefix, leaves, name)
  }

  ghost predicate DistinctNames(cs: Casing, prefix: string, leaves: seq<Leaf>) {
    forall i, j :: 0 <= i < j < |leaves| ==> EnvName(cs, prefix, leaves[i].path) != EnvName(cs, prefix, leaves[j].path)
  }

  ghost predicate Scalars(leaves: seq<Leaf>) {
    forall i :: 0 <= i < |leaves| ==> !leaves[i].value.Arr? && !leaves[i].value.Obj?
  }

  lemma DistinctSnoc(cs: Casing, prefix: string, leaves: seq<Leaf>, last: Leaf)
    ensures DistinctNames(cs, prefix, leaves + [last])
            <==> DistinctNames(cs, prefix, leaves) && !NamesLeaf(cs, prefix, leaves, EnvName(cs, prefix, last.path))
  {
    var all := leaves + [last];
    assert all[|leaves|] == last;
    forall i | 0 <= i < |leaves| ensures all[i] == leaves[i] {
    }
    if DistinctNames(cs, prefix, all) {
      forall i, j | 0 <= i < j < |leaves|
        ensures EnvName(cs, prefix, leaves[i].path) != EnvName(cs, prefix, leaves[j].path)
      {
        assert all[i] == leaves[i] && all[j] == leaves[j];
      }
    }
  }

  lemma NamesSnoc(cs: Casing, prefix: string, leaves: seq<Leaf>, last: Leaf, name: string)
    ensures NamesLeaf(cs, prefix, leaves + [last], name)
            <==> NamesLeaf(cs, prefix, leaves, name) || name == EnvName(cs, prefix, last.path)
  {
    var all := leaves + [last];
    assert all[|leaves|] == last;
    if i :| 0 <= i < |leaves| && EnvName(cs, prefix, leaves[i].path) == name {
      assert all[i] == leaves[i];
    }
  }

  /** Leaf `i` is the last of its name. */
  ghost predicate LastNamed(cs: Casing, prefix: string, leaves: seq<Leaf>, i: nat) {
    && i < |leaves|
    && forall j :: i < j < |leaves| ==> EnvName(cs, prefix, leaves[i].path) != EnvName(cs, prefix, leaves[j].path)
  }

  /** There are as many variables as leaves precisely when no two leaves share a name. */
  ghost predicate Counted(cs: Casing, vars: Vars, prefix: string, leaves: seq<Leaf>) {
    |vars| <= |leaves| && (|vars| == |leaves| <==> DistinctNames(cs, prefix, leaves))
  }

  ghost predicate Named(cs: Casing, vars: Vars, prefix: string, leaves: seq<Leaf>) {
    forall name :: name in vars <==> NamesLeaf(cs, prefix, leaves, name)
  }

  ghost predicate HoldsLast(cs: Casing, vars: Vars, prefix: string, leaves: seq<Leaf>) {
    forall i :: 0 <= i < |leaves| && LastNamed(cs, prefix, leaves, i) ==> HoldsLeaf(cs, vars, prefix, leaves[i])
  }

  /** What inserting the leaves comes to: the names are those of the leaves, and each holds the text of the last leaf of
      that name. */
  ghost predicate Collected(cs: Casing, vars: Vars, prefix: string, leaves: seq<Leaf>) {
    Counted(cs, vars, prefix, leaves) && Named(cs, vars, prefix, leaves) && HoldsLast(cs, vars, prefix, leaves)
  }

  lemma LastSnoc(cs: Casing, vars: Vars, prefix: string, leaves: seq<Leaf>, last: Leaf, text: string, i: nat)
    requires LastNamed(cs, prefix, leaves + [last], i) && EnvValue(last.value) == Some(text)
    requires i < |leaves| && LastNamed(cs, prefix, leaves, i) ==> HoldsLeaf(cs, vars, prefix, leaves[i])
    ensures HoldsLeaf(cs, vars[EnvName(cs, prefix, last.path) := text], prefix, (leaves + [last])[i])
  {
    var all := leaves + [last];
    assert all[|leaves|] == last;
    if i < |leaves| {
      assert all[i] == leaves[i];
      forall j | i < j < |leaves| ensures EnvName(cs, prefix, leaves[i].path) != EnvName(cs, prefix, leaves[j].path) {
        assert all[j] == leaves[j];
      }
    }
  }

  lemma SizeAfter(vars: Vars, name: string, text: string)
    ensures |vars[name := text]| == |vars| + if name in vars then 0 else 1
  {
    var after := vars[name := text];
    assert after.Keys == vars.Keys + {name} && |after| == |after.Keys| && |vars| == |vars.Keys|;
    assert name in vars ==> after.Keys == vars.Keys;
  }

  lemma CountOne(cs: Casing, vars: Vars, prefix: string, leaves: seq<Leaf>, last: Leaf, text: string)
    requires Counted(cs, vars, prefix, leaves) && Named(cs, vars, prefix, leaves)
    ensures Counted(cs, vars[EnvName(cs, prefix, last.path) := text], prefix, leaves + [last])
  {
    DistinctSnoc(cs, prefix, leaves, last);
    SizeAfter(vars, EnvName(cs, prefix, last.path), text);
  }

  lemma NameOne(cs: Casing, vars: Vars, prefix: string, leaves: seq<Leaf>, last: Leaf, text: string)
    requires Named(cs, vars, prefix, leaves)
    ensures Named(cs, vars[EnvName(cs, prefix, last.path) := text], prefix, leaves + [last])
  {
    forall k ensures k in vars[EnvName(cs, prefix, last.path) := text]
                     <==> NamesLeaf(cs, prefix, leaves + [last], k)
    {
      NamesSnoc(cs, prefix, leaves, last, k);
    }
  }

  lemma CollectOne(cs: Casing, vars: Vars, prefix: string, leaves: seq<Leaf>, last: Leaf, text: string)
    requires Collected(cs, vars, prefix, leaves) && EnvValue(last.value) == Some(text)
    ensures Collected(cs, vars[EnvName(cs, prefix, last.path) := text], prefix, leaves + [last])
  {
    CountOne(cs, vars, prefix, leaves, last, text);
    NameOne(cs, vars, prefix, leaves, last, text);
    HoldOne(cs, vars, prefix, leaves, last, text);
  }

  lemma HoldOne(cs: Casing, vars: Vars, prefix: string, leaves: seq<Leaf>, last: Leaf, text: string)
    requires HoldsLast(cs, vars, prefix, leaves) && EnvValue(last.value) == Some(text)
    ensures HoldsLast(cs, vars[EnvName(cs, prefix, last.path) := text], prefix, leaves + [last])
  {
    var all := leaves + [last];
    forall i | 0 <= i < |all| && LastNamed(cs, prefix, all, i)
      ensures HoldsLeaf(cs, vars[EnvName(cs, prefix, last.path) := text], prefix, all[i])
    {
      LastSnoc(cs, vars, prefix, leaves, last, text, i);
    }
  }

  /** What inserting the leaves gives: nothing if one is no scalar, and otherwise what they come to. */
  ghost predicate Gives(cs: Casing, prefix: string, leaves: seq<Leaf>, r: Option<Vars>) {
    (r.Some? <==> Scalars(leaves)) && (r.Some? ==> Collected(cs, r.value, prefix, leaves))
  }

  lemma ScalarsSnoc(leaves: seq<Leaf>, last: Leaf)
    ensures Scalars(leaves + [last]) <==> Scalars(leaves) && EnvValue(last.value).Some?
  {
    var all := leaves + [last];
    assert all[|leaves|] == last && forall i :: 0 <= i < |leaves| ==> all[i] == leaves[i];
  }

  lemma GivesMore(cs: Casing, prefix: string, leaves: seq<Leaf>, last: Leaf, before: Option<Vars>, after: Option<Vars>)
    requires Gives(cs, prefix, leaves, before)
    requires after == if before.None? || EnvValue(last.value).None? then None
                      else Some(before.value[EnvName(cs, prefix, last.path) := EnvValue(last.value).value])
    ensures Gives(cs, prefix, leaves + [last], after)
  {
    ScalarsSnoc(leaves, last);
    if after.Some? {
      CollectOne(cs, before.value, prefix, leaves, last, EnvValue(last.value).value);
    }
  }

  lemma {:induction false} InsertAll(cs: Casing, prefix: string, leaves: seq<Leaf>)
    ensures Gives(cs, prefix, leaves, InsertLeaves(cs, map[], prefix, leaves))
  {
    if leaves != [] {
      var n := |leaves| - 1;
      var init, last := leaves[..n], leaves[n];
      assert leaves == init + [last];
      InsertAll(cs, prefix, init);
      InsertConcat(cs, map[], prefix, init, [last]);
      var before := InsertLeaves(cs, map[], prefix, init);
      if before.Some? {
        InsertOne(cs, before.value, prefix, last);
      }
      GivesMore(cs, prefix, init, last, before, InsertLeaves(cs, map[], prefix, leaves));
    }
  }

  lemma InsertOne(cs: Casing, vars: Vars, prefix: string, leaf: Leaf)
    ensures InsertLeaves(cs, vars, prefix, [leaf])
            == match EnvValue(leaf.value)
               case None => None
               case Some(text) => Some(vars[EnvName(cs, prefix, leaf.path) := text])
  {
    assert [leaf][1..] == [];
  }

  lemma GoodNamesDistinct(cs: Casing, json: Json, prefix: string)
    requires GoodJson(json)
    ensures DistinctNames(cs, prefix, Leaves(json, []))
    ensures Scalars(Leaves(json, []))
            <==> forall i :: 0 <= i < |Leaves(json, [])| ==> !Leaves(json, [])[i].value.Arr?
  {
    var leaves := Leaves(json, []);
    LeavesOk(json, []);
    forall i, j | 0 <= i < j < |leaves|
      ensures EnvName(cs, prefix, leaves[i].path) != EnvName(cs, prefix, leaves[j].path)
    {
      assert LeafBelow(leaves[i], []) && LeafBelow(leaves[j], []);
      if EnvName(cs, prefix, leaves[i].path) == EnvName(cs, prefix, leaves[j].path) {
        EnvNameInjective(cs, prefix, leaves[i].path, leaves[j].path);
      }
    }
    forall i | 0 <= i < |leaves| ensures EnvValue(leaves[i].value).None? <==> leaves[i].value.Arr? {
      assert LeafBelow(leaves[i], []);
    }
  }

  /** For every JSON value: flattening fails precisely on an array; otherwise the variables are named after the leaves,
      each holds the text of the last leaf of its name, and no leaf is lost precisely when no two share a name. */
  lemma FlattenKeepsAllIff(cs: Casing, json: Json, prefix: string)
    ensures Flatten(cs, json, prefix).Some? <==> Scalars(Leaves(json, []))
    ensures Flatten(cs, json, prefix).Some? ==> Collected(cs, Flatten(cs, json, prefix).value, prefix, Leaves(json, []))
    ensures Flatten(cs, json, prefix).Some? ==>
              (|Flatten(cs, json, prefix).value| == |Leaves(json, [])| <==> DistinctNames(cs, prefix, Leaves(json, [])))
  {
    InsertAll(cs, prefix, Leaves(json, []));
  }

  /** Flattening a configuration with good field names loses no leaf: it fails only on an array, and otherwise
      every leaf has a variable of its own that holds its text, and there is no other variable. */
  lemma NoLeafLost(cs: Casing, json: Json, prefix: string)
    requires GoodJson(json)
    ensures Flatten(cs, json, prefix).Some?
            <==> forall i :: 0 <= i < |Leaves(json, [])| ==> !Leaves(json, [])[i].value.Arr?
    ensures Flatten(cs, json, prefix).Some?
            ==> Faithful(cs, Flatten(cs, json, prefix).value, prefix, Leaves(json, []))
  {
    var leaves := Leaves(json, []);
    GoodNamesDistinct(cs, json, prefix);
    FlattenKeepsAllIff(cs, json, prefix);
    forall i | 0 <= i < |leaves| ensures LastNamed(cs, prefix, leaves, i) {
    }
  }

  /** With a double underscore in a name, two leaves can meet in one variable. */
  lemma LostLeaf(cs: Casing, json: Json)
    requires json == Obj(Field("a", Obj(Field("b", Text("1"), NoFields)), Field("a__b", Text("2"), NoFields)))
    ensures |Leaves(json, [])| == 2
    ensures Flatten(cs, json, "P").Some? && |Flatten(cs, json, "P").value| == 1
  {
    var first, second := Leaf(["a", "b"], Text("1")), Leaf(["a__b"], Text("2"));
    LostLeafLeaves(first, second);
    LostLeafName(cs);
    var name := EnvName(cs, "P", ["a__b"]);
    assert [first, second][1..] == [second];
    InsertOne(cs, map[][name := "1"], "P", second);
    assert map[][name := "1"][name := "2"] == map[name := "2"];
  }

  lemma LostLeafLeaves(first: Leaf, second: Leaf)
    requires first == Leaf(["a", "b"], Text("1")) && second == Leaf(["a__b"], Text("2"))
    ensures Leaves(Obj(Field("a", Obj(Field("b", Text("1"), NoFields)), Field("a__b", Text("2"), NoFields))), [])
            == [first, second]
  {
    var inner, more := Field("b", Text("1"), NoFields), Field("a__b", Text("2"), NoFields);
    assert FieldLeaves(NoFields, ["a"]) == [];
    assert ["a"] + ["b"] == ["a", "b"] && Leaves(Text("1"), ["a"] + ["b"]) == [first];
    assert FieldLeaves(inner, ["a"]) == [first] + [];
    assert FieldLeaves(NoFields, []) == [];
    assert [] + ["a__b"] == ["a__b"] && Leaves(Text("2"), [] + ["a__b"]) == [second];
    assert FieldLeaves(more, []) == [second] + [];
    assert [] + ["a"] == ["a"] && Leaves(Obj(inner), [] + ["a"]) == [first];
    assert FieldLeaves(Field("a", Obj(inner), more), []) == [first] + [second];
  }

  lemma LostLeafName(cs: Casing)
    ensures EnvName(cs, "P", ["a", "b"]) == EnvName(cs, "P", ["a__b"])
  {
    assert ["b"][1..] == [] && ["a", "b"][1..] == ["b"] && ["a__b"][1..] == [];
    assert Tail(["b"]) == "__b";
    assert Tail(["a", "b"]) == "__a__b" == Tail(["a__b"]);
    NameOfPrefixed("P", ["a", "b"]);
    NameOfPrefixed("P", ["a__b"]);
  }

  // ---- the way back ----

  function TrimStartMatches(s: string, p: string): string
    requires p != ""
  {
    if p <= s then TrimStartMatches(s[|p|..], p) else s
  }

  /** Separators, from the left, become dots. */
  function Dots(s: string): string {
    if "__" <= s then "." + Dots(s[2..]) else if s == "" then "" else [s[0]] + Dots(s[1..])
  }

  function FromKeyToJsonPath(cs: Casing, key: string, servicePrefix: string): string {
    Dots(cs.lower(TrimStartMatches(key, servicePrefix + "__")))
  }

  function DotTail(path: Path): string {
    if path == [] then "" else "." + path[0] + DotTail(path[1..])
  }

  function Dotted(path: Path): string {
    if path == [] then "" else path[0] + DotTail(path[1..])
  }

  lemma {:induction false} DotsPlain(a: string, r: string)
    requires Plain(a)
    ensures Dots(a + r) == a + Dots(r)
  {
    if a == "" {
      assert a + r == r;
    } else {
      assert (a + r)[0] == a[0] && (a + r)[1..] == a[1..] + r;
      assert |a| > 1 ==> (a + r)[1] == a[1];
      assert !("__" <= a + r);
      DotsPlain(a[1..], r);
      assert [a[0]] + (a[1..] + Dots(r)) == a + Dots(r);
    }
  }

  /** Separators are replaced one by one, wherever they stand: in front, behind, or one after the other. */
  lemma DotsReplaces(a: string, r: string)
    requires Plain(a)
    ensures Dots(a + "__" + r) == a + "." + Dots(r) && Dots(a) == a
  {
    var s := "__" + r;
    assert a + "__" + r == a + s && s[2..] == r;
    DotsPlain(a, s);
    DotsPlain(a, "");
    assert a + "" == a && a + ("." + Dots(r)) == a + "." + Dots(r);
  }

  lemma {:induction false} DotsTail(path: Path)
    requires GoodPath(path)
    ensures Dots(Tail(path)) == DotTail(path)
  {
    if path != [] {
      var rest := path[0] + Tail(path[1..]);
      assert Tail(path) == "__" + rest && ("__" + rest)[2..] == rest;
      DotsPlain(path[0], Tail(path[1..]));
      DotsTail(path[1..]);
      assert "." + (path[0] + DotTail(path[1..])) == "." + path[0] + DotTail(path[1..]);
    }
  }

  lemma DotsJoined(path: Path)
    requires GoodPath(path) && path != []
    ensures Dots(JoinPath(path)) == Dotted(path)
  {
    JoinPathHead(path);
    DotsPlain(path[0], Tail(path[1..]));
    DotsTail(path[1..]);
  }

  lemma {:induction false} DotsGrow(c: char, s: string)
    ensures |Dots(s)| <= |Dots([c] + s)| <= |Dots(s)| + 1
    decreases |s|
  {
    assert ([c] + s)[1..] == s;
    if "__" <= [c] + s {
      assert s[0] == '_' && ([c] + s)[2..] == s[1..];
      DotsGrow('_', s[1..]);
      assert ['_'] + s[1..] == s;
    }
  }

  lemma {:induction false} DotsSuffix(a: string, s: string)
    ensures |Dots(s)| <= |Dots(a + s)|
  {
    if a == "" {
      assert a + s == s;
    } else {
      assert [a[0]] + (a[1..] + s) == a + s;
      DotsGrow(a[0], a[1..] + s);
      DotsSuffix(a[1..], s);
    }
  }

  /** Dropping two characters or more from the front loses something. */
  lemma DotsShrink(a: string, s: string)
    requires |a| >= 2
    ensures |Dots(s)| < |Dots(a + s)|
  {
    if "__" <= a + s {
      assert (a + s)[2..] == a[2..] + s;
      DotsSuffix(a[2..], s);
    } else {
      assert (a + s)[1..] == a[1..] + s;
      DotsSuffix(a[1..], s);
    }
  }

  lemma {:induction false} FrontOf(s: string, p: string) returns (front: string)
    requires p != "" && p <= s
    ensures s == front + TrimStartMatches(s, p) && |front| >= |p|
    decreases |s|
  {
    var rest := s[|p|..];
    if p <= rest {
      front := FrontOf(rest, p);
      front := p + front;
    } else {
      front := p;
    }
    assert s == p + rest;
  }

  lemma LowerConcat(a: string, b: string)
    ensures ToLower(a + b) == ToLower(a) + ToLower(b)
  {
  }

  lemma TailJoined(path: Path)
    requires path != []
    ensures Tail(path) == "__" + JoinPath(path)
  {
    JoinPathHead(path);
  }

  lemma PrefixedName(cs: Casing, prefix: string, path: Path)
    requires prefix != "" && cs.upper(prefix) == prefix && GoodPath(path) && path != []
    ensures EnvName(cs, prefix, path) == prefix + "__" + ToUpper(JoinPath(path))
  {
    var joined := JoinPath(path);
    NameOfPrefixed(prefix, path);
    TailJoined(path);
    UpperSplits(cs, prefix, Tail(path));
    JoinNoUpper(path);
    AsciiCase(cs, "__" + joined);
    UpperSeparated(joined);
    assert prefix + ("__" + ToUpper(joined)) == prefix + "__" + ToUpper(joined);
  }

  lemma UpperSeparated(joined: string)
    ensures ToUpper("__" + joined) == "__" + ToUpper(joined)
  {
  }

  lemma TrimOnce(p: string, s: string)
    requires p != ""
    ensures TrimStartMatches(p + s, p) == TrimStartMatches(s, p)
  {
    assert (p + s)[|p|..] == s;
  }

  /** The generated name, its prefix stripped once, is the joined path. */
  lemma StripOnce(cs: Casing, prefix: string, path: Path)
    requires cs.upper(prefix) == prefix && GoodPath(path) && path != []
    ensures TrimStartMatches(EnvName(cs, prefix, path), prefix + "__")
            == TrimStartMatches(ToUpper(JoinPath(path)), prefix + "__")
  {
    if prefix == "" {
      NameOfBare(path);
      JoinNoUpper(path);
      AsciiCase(cs, JoinPath(path));
    } else {
      PrefixedName(cs, prefix, path);
      TrimOnce(prefix + "__", ToUpper(JoinPath(path)));
    }
  }

  /** A generated name leads back to its dotted path exactly when the path does not itself begin with the prefix,
      which is stripped as often as it occurs. */
  lemma PathRecoveredIff(cs: Casing, prefix: string, path: Path)
    requires cs.upper(prefix) == prefix && GoodPath(path) && path != []
    ensures FromKeyToJsonPath(cs, EnvName(cs, prefix, path), prefix) == Dotted(path)
            <==> !(prefix + "__" <= ToUpper(JoinPath(path)))
  {
    var p := prefix + "__";
    var joined := JoinPath(path);
    var rest := TrimStartMatches(ToUpper(joined), p);
    StripOnce(cs, prefix, path);
    JoinNoUpper(path);
    LowerOfUpper(joined);
    DotsJoined(path);
    if p <= ToUpper(joined) {
      var front := FrontOf(ToUpper(joined), p);
      AsciiSuffix(joined, front, rest);
      AsciiCase(cs, rest);
      LowerConcat(front, rest);
      DotsShrink(ToLower(front), ToLower(rest));
    } else {
      AsciiSuffix(joined, "", rest);
      AsciiCase(cs, rest);
    }
  }

  lemma AsciiSuffix(joined: string, front: string, rest: string)
    requires Ascii(joined) && ToUpper(joined) == front + rest
    ensures Ascii(rest)
  {
    forall i | 0 <= i < |rest| ensures IsAscii(rest[i]) {
      assert rest[i] == ToUpper(joined)[|front| + i];
    }
  }

  /** For a prefix that is itself a name, the exception is a path of two names or more whose first is the prefix. */
  lemma BeginsWithPrefixIff(service: string, path: Path)
    requires GoodName(service) && GoodPath(path) && path != []
    ensures ToUpper(service) + "__" <= ToUpper(JoinPath(path)) <==> |path| > 1 && path[0] == service
  {
    JoinNoUpper(path);
    UpperConcat(service, "__");
    assert ToUpper("__") == "__";
    JoinPathHead(path);
    if |path| > 1 && path[0] == service {
      assert "__" <= Tail(path[1..]);
      UpperConcat(service, Tail(path[1..]));
      UpperPrefix("__", Tail(path[1..]));
    }
    if ToUpper(service) + "__" <= ToUpper(JoinPath(path)) {
      LowerPrefix(ToUpper(service + "__"), ToUpper(JoinPath(path)));
      LowerOfUpper(service + "__");
      LowerOfUpper(JoinPath(path));
      FirstIsService(service, path);
    }
  }

  lemma FirstIsService(service: string, path: Path)
    requires GoodName(service) && GoodPath(path) && path != [] && service + "__" <= JoinPath(path)
    ensures |path| > 1 && path[0] == service
  {
    var rest := JoinPath(path)[|service|..];
    assert JoinPath(path) == service + rest;
    assert "__" <= rest;
    JoinPathHead(path);
    HeadUnique(service, rest, path[0], Tail(path[1..]));
  }

  lemma UpperPrefix(a: string, b: string)
    requires a <= b
    ensures ToUpper(a) <= ToUpper(b)
  {
  }

  lemma LowerPrefix(a: string, b: string)
    requires a <= b
    ensures ToLower(a) <= ToLower(b)
  {
  }

  /** With prefix `A`, the field `x` of the section `a` is looked up at the root. */
  lemma PrefixStrippedTwice(cs: Casing)
    ensures EnvName(cs, "A", ["a", "x"]) == "A__A__X"
    ensures FromKeyToJsonPath(cs, "A__A__X", "A") == "x" != Dotted(["a", "x"])
  {
    ExampleName(cs);
    var p := "A" + "__";
    var name, once := "A__A__X", "A__X";
    assert name[|p|..] == once && once[|p|..] == "X";
    assert TrimStartMatches(name, p) == TrimStartMatches(once, p) == TrimStartMatches("X", p) == "X";
    AsciiCase(cs, "X");
    assert ToLower("X") == "x" && "x"[1..] == "";
    assert Dots("x") == "x";
    assert Dotted(["a", "x"])[0] == 'a';
  }

  lemma ExampleName(cs: Casing)
    ensures EnvName(cs, "A", ["a", "x"]) == "A__A__X"
  {
    assert ["x"][1..] == [] && ["a", "x"][1..] == ["x"];
    assert Tail(["x"]) == "__x" && Tail(["a", "x"]) == "__a__x";
    NameOfPrefixed("A", ["a", "x"]);
    assert "A" + "__a__x" == "A__a__x";
    AsciiCase(cs, "A__a__x");
    assert ToUpper("A__a__x") == "A__A__X";
  }
}

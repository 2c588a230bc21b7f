/** The Markdown table of variables: printing it, and reading it back through the row pattern. */
module EnvTable {
  import opened Prelude
  import opened EnvSort

  // ---- characters ----

  /** The Unicode white space characters. */
  predicate IsSpace(c: char) {
    || '\U{9}' <= c <= '\U{d}' || c == ' ' || c == '\U{85}' || c == '\U{a0}' || c == '\U{1680}'
    || '\U{2000}' <= c <= '\U{200a}' || c == '\U{2028}' || c == '\U{2029}' || c == '\U{202f}'
    || c == '\U{205f}' || c == '\U{3000}'
  }

  predicate NotPipe(c: char) { c != '|' }

  predicate KeyChar(c: char) { c != '|' && c != '`' }

  predicate IsAscii(c: char) { c < '\U{80}' }

  ghost predicate All(s: string, f: char -> bool) {
    forall i :: 0 <= i < |s| ==> f(s[i])
  }

  function FilterAscii(s: string): string {
    if s == [] then []
    else (if IsAscii(s[0]) then [s[0]] else []) + FilterAscii(s[1..])
  }

  function TakeWhile(s: string, f: char -> bool): string {
    if s != [] && f(s[0]) then [s[0]] + TakeWhile(s[1..], f) else []
  }

  function DropWhile(s: string, f: char -> bool): (rest: string)
    ensures |rest| <= |s|
  {
    if s != [] && f(s[0]) then DropWhile(s[1..], f) else s
  }

  lemma {:induction false} TakeDrop(s: string, f: char -> bool)
    ensures s == TakeWhile(s, f) + DropWhile(s, f) && All(TakeWhile(s, f), f)
    ensures DropWhile(s, f) != [] ==> !f(DropWhile(s, f)[0])
  {
    if s != [] && f(s[0]) {
      TakeDrop(s[1..], f);
    }
  }

  /** A run followed by something else is taken whole. */
  lemma {:induction false} TakeRun(run: string, rest: string, f: char -> bool)
    requires All(run, f) && (rest != [] ==> !f(rest[0]))
    ensures TakeWhile(run + rest, f) == run && DropWhile(run + rest, f) == rest
  {
    if run == [] {
      assert run + rest == rest;
    } else {
      TakeRun(run[1..], rest, f);
      assert (run + rest)[1..] == run[1..] + rest;
    }
  }

  function TrimStart(s: string): string {
    DropWhile(s, IsSpace)
  }

  function TrimEnd(s: string): string {
    if s != [] && IsSpace(s[|s| - 1]) then TrimEnd(s[..|s| - 1]) else s
  }

  function Trim(s: string): string {
    TrimEnd(TrimStart(s))
  }

  predicate Trimmed(s: string) {
    s != [] ==> !IsSpace(s[0]) && !IsSpace(s[|s| - 1])
  }

  lemma {:induction false} TrimEndOk(s: string, f: char -> bool)
    requires All(s, f)
    ensures All(TrimEnd(s), f)
    ensures TrimEnd(s) != [] ==> !IsSpace(TrimEnd(s)[|TrimEnd(s)| - 1]) && TrimEnd(s)[0] == s[0]
  {
    if s != [] && IsSpace(s[|s| - 1]) {
      TrimEndOk(s[..|s| - 1], f);
    }
  }

  lemma TrimOk(s: string, f: char -> bool)
    requires All(s, f)
    ensures All(Trim(s), f) && Trimmed(Trim(s))
  {
    TakeDrop(s, IsSpace);
    assert forall i :: 0 <= i < |TrimStart(s)| ==> TrimStart(s)[i] == s[|s| - |TrimStart(s)| + i];
    TrimEndOk(TrimStart(s), f);
  }

  // ---- the row pattern ----

  /** The four captures of one row. */
  datatype RawRow = RawRow(key: string, required: string, description: string, defaultValue: string)

  /** After a pipe: white space, a key in backticks, white space, a pipe. Gives the key and what follows. */
  function KeyCell(s: string): (r: Option<(string, string)>)
    ensures r.Some? ==> |r.value.1| < |s|
  {
    var t := DropWhile(s, IsSpace);
    if t == [] || t[0] != '`' then None
    else
      var u := DropWhile(t[1..], KeyChar);
      if u == [] || u[0] != '`' then None
      else
        var w := DropWhile(u[1..], IsSpace);
        if w == [] || w[0] != '|' then None else Some((TakeWhile(t[1..], KeyChar), w[1..]))
  }

  /** After a pipe: white space, then anything up to the next pipe. Gives the text and what follows the pipe. */
  function Cell(s: string): (r: Option<(string, string)>)
    ensures r.Some? ==> |r.value.1| < |s|
  {
    var t := DropWhile(s, IsSpace);
    var u := DropWhile(t, NotPipe);
    if u == [] then None else Some((TakeWhile(t, NotPipe), u[1..]))
  }

  /** The row pattern at the start of `s`. */
  function MatchRow(s: string): (r: Option<(RawRow, string)>)
    ensures r.Some? ==> |r.value.1| < |s|
  {
    if s == [] || s[0] != '|' then None
    else
      match KeyCell(s[1..])
      case None => None
      case Some((key, s1)) =>
        match Cell(s1)
        case None => None
        case Some((required, s2)) =>
          match Cell(s2)
          case None => None
          case Some((description, s3)) =>
            match Cell(s3)
            case None => None
            case Some((defaultValue, s4)) => Some((RawRow(key, required, description, defaultValue), s4))
  }

  /** All matches, leftmost first, none overlapping. */
  function Scan(s: string): seq<RawRow>
    decreases |s|
  {
    if s == [] then []
    else
      match MatchRow(s)
      case None => Scan(s[1..])
      case Some((row, rest)) => [row] + Scan(rest)
  }

  // ---- reading a table ----

  function VariableOf(row: RawRow, index: nat): EnvVariable {
    EnvVariable(row.key, Trim(row.description), Trim(row.required) == "true",
                if Trim(row.defaultValue) == "" then None else Some(Trim(row.defaultValue)), Some(index))
  }

  /** The rows collected by id; a later row takes the place of an earlier one with its id. */
  function Collect(rows: seq<RawRow>): Envs {
    if rows == [] then map[]
    else
      var n := |rows| - 1;
      Collect(rows[..n])[FilterAscii(rows[n].key) := VariableOf(rows[n], n)]
  }

  function FromMarkdown(table: string): Envs {
    Collect(Scan(table))
  }

  // ---- printing a table ----

  const HEADER: string :=
    "\n| Variable | Req&#x200B;" + "uir&#x200B;ed | Description |" + " Default value |\n"
    + "| --- | --- | --- | --- |\n"

  function CellText(text: string): string {
    if text == "" then " " else " " + text + " "
  }

  function DefaultText(value: Option<string>): string {
    match value case None => " " case Some(v) => " " + v + " "
  }

  function RowText(v: EnvVariable): string {
    "| `" + v.key + "` |" + CellText(if v.required then "true" else "") + "|" + CellText(v.description) + "|"
    + DefaultText(v.defaultValue) + "|\n"
  }

  function Join(texts: seq<string>): string {
    if texts == [] then "" else texts[0] + Join(texts[1..])
  }

  function Texts(vs: seq<EnvVariable>): seq<string> {
    seq(|vs|, i requires 0 <= i < |vs| => RowText(vs[i]))
  }

  function RowsText(vs: seq<EnvVariable>): string {
    Join(Texts(vs))
  }

  function ToTable(vars: Envs): string {
    HEADER + RowsText(Sorted(vars))
  }

  lemma {:induction false} JoinSnoc(texts: seq<string>, last: string)
    ensures Join(texts + [last]) == Join(texts) + last
  {
    if texts == [] {
      assert texts + [last] == [last];
    } else {
      assert (texts + [last])[1..] == texts[1..] + [last];
      JoinSnoc(texts[1..], last);
    }
  }

  /** The printing loop. */
  method AppendRows(start: string, vs: seq<EnvVariable>) returns (table: string)
    ensures table == start + RowsText(vs)
  {
    ghost var texts := Texts(vs);
    table := start;
    for i := 0 to |vs|
      invariant table == start + Join(texts[..i])
    {
      var row := RowText(vs[i]);
      AppendRow(start, texts, i, table, row);
      table := table + row;
    }
    assert texts[..|vs|] == texts;
  }

  lemma AppendRow(start: string, texts: seq<string>, i: nat, table: string, row: string)
    requires i < |texts| && table == start + Join(texts[..i]) && row == texts[i]
    ensures table + row == start + Join(texts[..i + 1])
  {
    JoinSnoc(texts[..i], row);
    assert texts[..i] + [row] == texts[..i + 1];
  }

  method SerializeToTable(vars: Envs) returns (table: string)
    ensures table == ToTable(vars)
    ensures table == "\n| Variable | Req&#x200B;" + "uir&#x200B;ed | Description |" + " Default value |\n"
                     + "| --- | --- | --- | --- |\n" + RowsText(Sorted(vars))
  {
    var sorted := SortedWithRequired(vars);
    table := AppendRows(HEADER, sorted);
  }

  // ---- what survives a round trip ----

  /** Cells the table can carry: no pipe, and nothing for trimming to remove. */
  ghost predicate CleanCell(s: string) {
    All(s, NotPipe) && Trimmed(s)
  }

  ghost predicate CleanVariable(v: EnvVariable) {
    && All(v.key, KeyChar) && CleanCell(v.description)
    && (v.defaultValue.Some? ==> v.defaultValue.value != "" && CleanCell(v.defaultValue.value))
  }

  ghost predicate Clean(vars: Envs) {
    forall id :: id in vars ==> CleanVariable(vars[id]) && FilterAscii(vars[id].key) == id
  }

  function Group(text: string): string {
    if text == "" then "" else text + " "
  }

  lemma TrimGroup(text: string)
    requires Trimmed(text)
    ensures Trim(Group(text)) == text
  {
    var g := Group(text);
    if text != "" {
      assert g[0] == text[0];
      assert TrimStart(g) == g;
      assert g[..|g| - 1] == text;
      assert TrimEnd(text) == text;
    }
  }

  function RawOf(v: EnvVariable): RawRow {
    RawRow(v.key, Group(if v.required then "true" else ""), Group(v.description),
           Group(match v.defaultValue case None => "" case Some(d) => d))
  }

  lemma VariableOfRaw(v: EnvVariable, index: nat)
    requires CleanVariable(v)
    ensures VariableOf(RawOf(v), index) == v.(tableIndex := Some(index))
  {
    TrimGroup("true");
    TrimGroup("");
    TrimGroup(v.description);
    if v.defaultValue.Some? {
      TrimGroup(v.defaultValue.value);
    }
  }

  lemma CellAt(text: string, rest: string)
    requires CleanCell(text)
    ensures Cell(CellText(text) + ("|" + rest)) == Some((Group(text), rest))
  {
    var after := "|" + rest;
    assert CellText(text) + after == " " + (Group(text) + after);
    TakeRun(" ", Group(text) + after, IsSpace);
    TakeRun(Group(text), after, NotPipe);
    assert after[1..] == rest;
  }

  lemma KeyCellAt(key: string, rest: string)
    requires All(key, KeyChar)
    ensures KeyCell(" `" + (key + ("` |" + rest))) == Some((key, rest))
  {
    var after := "` |" + rest;
    assert " `" + (key + after) == " " + ("`" + (key + after));
    TakeRun(" ", "`" + (key + after), IsSpace);
    assert ("`" + (key + after))[1..] == key + after;
    TakeRun(key, after, KeyChar);
    assert after[1..] == " " + ("|" + rest);
    TakeRun(" ", "|" + rest, IsSpace);
    assert ("|" + rest)[1..] == rest;
  }

  lemma MatchFrom(s: string, row: RawRow, s1: string, s2: string, s3: string, s4: string)
    requires s != [] && s[0] == '|' && KeyCell(s[1..]) == Some((row.key, s1))
    requires Cell(s1) == Some((row.required, s2)) && Cell(s2) == Some((row.description, s3))
    requires Cell(s3) == Some((row.defaultValue, s4))
    ensures MatchRow(s) == Some((row, s4))
  {
  }

  /** A printed row is matched whole, up to its line end, with the groups of its cells. */
  lemma RowAt(v: EnvVariable, rest: string)
    requires CleanVariable(v)
    ensures MatchRow(RowText(v) + rest) == Some((RawOf(v), "\n" + rest))
  {
    var required := if v.required then "true" else "";
    var value := match v.defaultValue case None => "" case Some(d) => d;
    assert DefaultText(v.defaultValue) == CellText(value);
    var s4 := "\n" + rest;
    var s3 := CellText(value) + ("|" + s4);
    var s2 := CellText(v.description) + ("|" + s3);
    var s1 := CellText(required) + ("|" + s2);
    var s0 := " `" + (v.key + ("` |" + s1));
    RowTextFrom(v.key, CellText(required), CellText(v.description), CellText(value), rest);
    KeyCellAt(v.key, s1);
    CellAt(required, s2);
    CellAt(v.description, s3);
    CellAt(value, s4);
    assert ("|" + s0)[1..] == s0;
    MatchFrom("|" + s0, RawOf(v), s1, s2, s3, s4);
  }

  lemma RowTextFrom(key: string, a: string, b: string, c: string, rest: string)
    ensures ("| `" + key + "` |" + a + "|" + b + "|" + c + "|\n") + rest
            == "|" + (" `" + (key + ("` |" + (a + ("|" + (b + ("|" + (c + ("|" + ("\n" + rest))))))))))
  {
  }

  /** Text without a backtick, followed by a pipe or nothing, does not lead to a backtick over white space. */
  lemma {:induction false} NoKeyAhead(h: string, t: string)
    requires (forall i :: 0 <= i < |h| ==> h[i] != '`') && (t != [] ==> t[0] == '|')
    ensures var u := DropWhile(h + t, IsSpace); u != [] ==> u[0] != '`'
  {
    if h == [] {
      assert h + t == t;
    } else {
      assert (h + t)[0] == h[0] && (h + t)[1..] == h[1..] + t;
      NoKeyAhead(h[1..], t);
    }
  }

  /** Text without a backtick holds no row, as long as it is followed by a pipe or nothing. */
  lemma {:induction false} ScanOver(h: string, t: string)
    requires (forall i :: 0 <= i < |h| ==> h[i] != '`') && (t != [] ==> t[0] == '|')
    ensures Scan(h + t) == Scan(t)
  {
    if h == [] {
      assert h + t == t;
    } else {
      assert (h + t)[0] == h[0] && (h + t)[1..] == h[1..] + t;
      NoKeyAhead(h[1..], t);
      assert MatchRow(h + t).None?;
      ScanOver(h[1..], t);
    }
  }

  function RawsOf(vs: seq<EnvVariable>): seq<RawRow> {
    seq(|vs|, i requires 0 <= i < |vs| => RawOf(vs[i]))
  }

  lemma ScanRow(v: EnvVariable, rest: string)
    requires CleanVariable(v)
    ensures Scan(RowText(v) + rest) == [RawOf(v)] + Scan(rest)
  {
    RowAt(v, rest);
    var s := "\n" + rest;
    assert s[1..] == rest;
    assert Scan(s) == Scan(rest);
  }

  ghost predicate ScansTo(text: string, raw: RawRow) {
    forall rest :: Scan(text + rest) == [raw] + Scan(rest)
  }

  lemma {:induction false} ScanTexts(texts: seq<string>, raws: seq<RawRow>)
    requires |texts| == |raws| && forall i :: 0 <= i < |texts| ==> ScansTo(texts[i], raws[i])
    ensures Scan(Join(texts)) == raws
  {
    if texts != [] {
      assert ScansTo(texts[0], raws[0]);
      ScanTexts(texts[1..], raws[1..]);
      assert raws == [raws[0]] + raws[1..];
    }
  }

  lemma ScanRows(vs: seq<EnvVariable>)
    requires forall i :: 0 <= i < |vs| ==> CleanVariable(vs[i])
    ensures Scan(RowsText(vs)) == RawsOf(vs)
  {
    forall i | 0 <= i < |vs| ensures ScansTo(Texts(vs)[i], RawsOf(vs)[i]) {
      RowScansTo(vs[i]);
    }
    ScanTexts(Texts(vs), RawsOf(vs));
  }

  lemma RowScansTo(v: EnvVariable)
    requires CleanVariable(v)
    ensures ScansTo(RowText(v), RawOf(v))
  {
    forall rest ensures Scan(RowText(v) + rest) == [RawOf(v)] + Scan(rest) {
      ScanRow(v, rest);
    }
  }

  lemma HeaderHasNoBacktick()
    ensures forall i :: 0 <= i < |HEADER| ==> HEADER[i] != '`'
  {
    assert '`' !in "\n| Variable | Req&#x200B;" && '`' !in "uir&#x200B;ed | Description |";
    assert '`' !in " Default value |\n" && '`' !in "| --- | --- | --- | --- |\n";
    assert '`' !in HEADER;
  }

  /** Reading a printed table gives the captures of its rows, in printed order. */
  lemma ScanTable(header: string, vs: seq<EnvVariable>)
    requires forall i :: 0 <= i < |vs| ==> CleanVariable(vs[i])
    requires forall i :: 0 <= i < |header| ==> header[i] != '`'
    ensures Scan(header + RowsText(vs)) == RawsOf(vs)
  {
    ScanRows(vs);
    assert vs != [] ==> RowText(vs[0])[0] == '|';
    ScanOver(header, RowsText(vs));
  }

  // ---- what reading yields ----

  /** `v`, collected under `id`, is the variable of the row its index names. */
  ghost predicate FromRow(rows: seq<RawRow>, id: string, v: EnvVariable) {
    && v.tableIndex.Some? && v.tableIndex.value < |rows|
    && v == VariableOf(rows[v.tableIndex.value], v.tableIndex.value)
    && FilterAscii(v.key) == id
  }

  lemma FromMoreRows(rows: seq<RawRow>, last: RawRow, id: string, v: EnvVariable)
    requires FromRow(rows, id, v)
    ensures FromRow(rows + [last], id, v)
  {
  }

  lemma {:induction false} CollectOk(rows: seq<RawRow>)
    ensures forall id :: id in Collect(rows) ==> FromRow(rows, id, Collect(rows)[id])
  {
    if rows != [] {
      var n := |rows| - 1;
      var earlier := Collect(rows[..n]);
      CollectOk(rows[..n]);
      assert rows == rows[..n] + [rows[n]];
      forall id | id in Collect(rows) ensures FromRow(rows, id, Collect(rows)[id]) {
        if id != FilterAscii(rows[n].key) {
          FromMoreRows(rows[..n], rows[n], id, earlier[id]);
        }
      }
    }
  }

  /** With distinct ids, every row is kept. */
  lemma {:induction false} CollectDistinct(rows: seq<RawRow>, i: nat)
    requires i < |rows|
    requires forall j, k :: 0 <= j < k < |rows| ==> FilterAscii(rows[j].key) != FilterAscii(rows[k].key)
    ensures FilterAscii(rows[i].key) in Collect(rows)
    ensures Collect(rows)[FilterAscii(rows[i].key)] == VariableOf(rows[i], i)
  {
    var n := |rows| - 1;
    if i < n {
      CollectDistinct(rows[..n], i);
    }
  }

  ghost predicate CleanRaw(row: RawRow) {
    All(row.key, KeyChar) && All(row.description, NotPipe) && All(row.defaultValue, NotPipe)
  }

  lemma MatchRowClean(s: string)
    requires MatchRow(s).Some?
    ensures CleanRaw(MatchRow(s).value.0)
  {
    var (key, s1) := KeyCell(s[1..]).value;
    TakeDrop(DropWhile(s[1..], IsSpace)[1..], KeyChar);
    var (_, s2) := Cell(s1).value;
    var (_, s3) := Cell(s2).value;
    TakeDrop(DropWhile(s2, IsSpace), NotPipe);
    TakeDrop(DropWhile(s3, IsSpace), NotPipe);
  }

  lemma {:induction false} ScanClean(s: string)
    ensures forall i :: 0 <= i < |Scan(s)| ==> CleanRaw(Scan(s)[i])
    decreases |s|
  {
    if s != [] {
      match MatchRow(s) {
        case None => ScanClean(s[1..]);
        case Some((row, rest)) =>
          MatchRowClean(s);
          ScanClean(rest);
      }
    }
  }

  lemma VariableClean(row: RawRow, index: nat)
    requires CleanRaw(row)
    ensures CleanVariable(VariableOf(row, index))
  {
    TrimOk(row.description, NotPipe);
    TrimOk(row.defaultValue, NotPipe);
  }

  /** Whatever the text, what is read from it can be printed and read again, and no index occurs twice. */
  lemma FromMarkdownClean(table: string)
    ensures Clean(FromMarkdown(table)) && DistinctIndices(FromMarkdown(table))
  {
    var rows := Scan(table);
    ScanClean(table);
    CollectOk(rows);
    forall id | id in Collect(rows) ensures CleanVariable(Collect(rows)[id]) {
      assert FromRow(rows, id, Collect(rows)[id]);
      VariableClean(rows[Collect(rows)[id].tableIndex.value], Collect(rows)[id].tableIndex.value);
    }
  }

  // ---- round trip ----

  /** Rows of clean variables under distinct ids are collected as those variables. */
  lemma CollectPrinted(vs: seq<EnvVariable>, ids: seq<string>)
    requires |vs| == |ids| && (forall i, j :: 0 <= i < j < |ids| ==> ids[i] != ids[j])
    requires forall i :: 0 <= i < |vs| ==> CleanVariable(vs[i]) && FilterAscii(vs[i].key) == ids[i]
    ensures var back := Collect(RawsOf(vs));
            && (forall id :: id in back ==> id in ids)
            && (forall i :: 0 <= i < |ids| ==> ids[i] in back && back[ids[i]] == vs[i].(tableIndex := Some(i)))
  {
    var rows := RawsOf(vs);
    CollectOk(rows);
    forall i | 0 <= i < |ids| ensures ids[i] in Collect(rows)
                              ensures Collect(rows)[ids[i]] == vs[i].(tableIndex := Some(i))
    {
      CollectDistinct(rows, i);
      VariableOfRaw(vs[i], i);
    }
    forall id | id in Collect(rows) ensures id in ids {
      var v := Collect(rows)[id];
      assert FromRow(rows, id, v);
      assert v.key == vs[v.tableIndex.value].key;
    }
  }

  lemma ReadPrinted(vars: Envs)
    requires Clean(vars)
    ensures FromMarkdown(ToTable(vars)) == Collect(RawsOf(Sorted(vars)))
  {
    SortedIdsKnown(vars);
    HeaderHasNoBacktick();
    ScanTable(HEADER, Sorted(vars));
  }

  /** Printing variables and reading the table back gives the same variables, each with its printed position
      as its index. */
  lemma RoundTrip(vars: Envs)
    requires Clean(vars) && DistinctIndices(vars)
    ensures var ids := SortedIds(vars);
            var back := FromMarkdown(ToTable(vars));
            && back.Keys == vars.Keys
            && forall i :: 0 <= i < |ids| ==>
                 ids[i] in vars && ids[i] in back && back[ids[i]] == vars[ids[i]].(tableIndex := Some(i))
  {
    SortedIdsKnown(vars);
    SortedIdsOnce(vars);
    ReadPrinted(vars);
    CollectPrinted(Sorted(vars), SortedIds(vars));
  }
}

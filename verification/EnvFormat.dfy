/** Reading tables that were not printed here: rows with any white space around their cells, as a formatter or a person
    writes them, and with ids that occur more than once. */
module EnvFormat {
  import opened Prelude
  import opened EnvSort
  import opened EnvTable

  /** The 25 characters with the Unicode property White_Space. */
  const WHITE_SPACE: string :=
    "\U{9}\U{a}\U{b}\U{c}\U{d}\U{20}\U{85}\U{a0}\U{1680}\U{2000}\U{2001}\U{2002}\U{2003}\U{2004}\U{2005}\U{2006}\U{2007}"
    + "\U{2008}\U{2009}\U{200a}\U{2028}\U{2029}\U{202f}\U{205f}\U{3000}"

  lemma WhiteSpaceIs(c: char)
    ensures IsSpace(c) <==> c in WHITE_SPACE
  {
    var i := c as int;
    if IsSpace(c) {
      var k := if i <= 0xd then i - 9 else if i == 0x20 then 5 else if i == 0x85 then 6 else if i == 0xa0 then 7
               else if i == 0x1680 then 8 else if i <= 0x200a then i - 0x2000 + 9 else if i <= 0x2029 then i - 0x2028 + 20
               else if i == 0x202f then 22 else if i == 0x205f then 23 else 24;
      assert WHITE_SPACE[k] == c;
    }
  }

  /** The texts of one row, and the white space before and after each. */
  datatype Cells = Cells(key: string, required: string, description: string, defaultValue: string)

  datatype Pads = Pads(k0: string, k1: string, r0: string, r1: string, d0: string, d1: string, v0: string, v1: string)

  ghost predicate Blank(s: string) {
    forall i :: 0 <= i < |s| ==> s[i] in WHITE_SPACE
  }

  ghost predicate Padding(p: Pads) {
    && Blank(p.k0) && Blank(p.k1) && Blank(p.r0) && Blank(p.r1)
    && Blank(p.d0) && Blank(p.d1) && Blank(p.v0) && Blank(p.v1)
  }

  /** Text that can stand in a cell: no pipe in it, no white space around it. */
  ghost predicate Content(s: string) {
    '|' !in s && (s != "" ==> s[0] !in WHITE_SPACE && s[|s| - 1] !in WHITE_SPACE)
  }

  ghost predicate Contents(c: Cells) {
    '|' !in c.key && '`' !in c.key && Content(c.required) && Content(c.description) && Content(c.defaultValue)
  }

  function PaddedCell(before: string, text: string, after: string): string {
    before + (text + (after + "|"))
  }

  function PaddedRow(c: Cells, p: Pads): string {
    "|" + (p.k0 + ("`" + (c.key + ("`" + (p.k1 + "|")))))
    + PaddedCell(p.r0, c.required, p.r1) + PaddedCell(p.d0, c.description, p.d1)
    + PaddedCell(p.v0, c.defaultValue, p.v1)
  }

  // ---- one cell ----

  lemma BlankIsSpace(s: string)
    requires Blank(s)
    ensures All(s, IsSpace)
  {
    forall i | 0 <= i < |s| ensures IsSpace(s[i]) {
      WhiteSpaceIs(s[i]);
    }
  }

  lemma ContentIsClean(s: string)
    requires Content(s)
    ensures All(s, NotPipe) && Trimmed(s)
  {
    if s != "" {
      WhiteSpaceIs(s[0]);
      WhiteSpaceIs(s[|s| - 1]);
    }
  }

  lemma SpacesAreNoPipes(s: string)
    requires All(s, IsSpace)
    ensures All(s, NotPipe)
  {
    forall i | 0 <= i < |s| ensures NotPipe(s[i]) {
      assert IsSpace(s[i]);
    }
  }

  /** What the pattern captures of a cell: white space in front is passed over, that behind a text is not. */
  function Captured(text: string, after: string): string {
    if text == "" then "" else text + after
  }

  lemma {:induction false} TrimEndPadded(text: string, after: string)
    requires Trimmed(text) && All(after, IsSpace)
    ensures TrimEnd(text + after) == text
  {
    var s := text + after;
    if after == "" {
      assert s == text;
    } else {
      var n := |after| - 1;
      assert s[|s| - 1] == after[n] && s[..|s| - 1] == text + after[..n];
      TrimEndPadded(text, after[..n]);
    }
  }

  lemma TrimCaptured(text: string, after: string)
    requires Trimmed(text) && All(after, IsSpace)
    ensures Trim(Captured(text, after)) == text
  {
    if text != "" {
      assert (text + after)[0] == text[0];
      TrimEndPadded(text, after);
    }
  }

  lemma CellRead(before: string, text: string, after: string, rest: string)
    requires All(before, IsSpace) && All(after, IsSpace) && All(text, NotPipe) && Trimmed(text)
    ensures Cell(PaddedCell(before, text, after) + rest) == Some((Captured(text, after), rest))
  {
    var end := "|" + rest;
    SpacesAreNoPipes(after);
    assert end[1..] == rest;
    if text == "" {
      assert PaddedCell(before, text, after) + rest == (before + after) + end;
      TakeRun(before + after, end, IsSpace);
      TakeRun("", end, NotPipe);
      assert "" + end == end;
    } else {
      assert PaddedCell(before, text, after) + rest == before + ((text + after) + end);
      assert ((text + after) + end)[0] == text[0];
      TakeRun(before, (text + after) + end, IsSpace);
      TakeRun(text + after, end, NotPipe);
    }
  }

  lemma KeyRead(before: string, key: string, after: string, rest: string)
    requires All(before, IsSpace) && All(after, IsSpace) && All(key, KeyChar)
    ensures KeyCell((before + ("`" + (key + ("`" + (after + "|"))))) + rest) == Some((key, rest))
  {
    var end := "|" + rest;
    var close := "`" + (after + end);
    assert (before + ("`" + (key + ("`" + (after + "|"))))) + rest == before + ("`" + (key + close));
    TakeRun(before, "`" + (key + close), IsSpace);
    assert ("`" + (key + close))[1..] == key + close;
    TakeRun(key, close, KeyChar);
    assert close[1..] == after + end;
    TakeRun(after, end, IsSpace);
    assert end[1..] == rest;
  }

  // ---- one row ----

  function RawCells(c: Cells, p: Pads): RawRow {
    RawRow(c.key, Captured(c.required, p.r1), Captured(c.description, p.d1), Captured(c.defaultValue, p.v1))
  }

  lemma RowParts(c: Cells, p: Pads, rest: string, key: string, a: string, b: string, d: string)
    requires key == p.k0 + ("`" + (c.key + ("`" + (p.k1 + "|"))))
    requires a == PaddedCell(p.r0, c.required, p.r1) && b == PaddedCell(p.d0, c.description, p.d1)
    requires d == PaddedCell(p.v0, c.defaultValue, p.v1)
    ensures PaddedRow(c, p) + rest == "|" + (key + (a + (b + (d + rest))))
  {
    assert PaddedRow(c, p) == "|" + key + a + b + d;
  }

  /** The pattern matches a padded row whole. */
  lemma PaddedMatch(c: Cells, p: Pads, rest: string)
    requires Contents(c) && Padding(p)
    ensures MatchRow(PaddedRow(c, p) + rest) == Some((RawCells(c, p), rest))
  {
    BlankIsSpace(p.k0);
    BlankIsSpace(p.k1);
    BlankIsSpace(p.r0);
    BlankIsSpace(p.r1);
    BlankIsSpace(p.d0);
    BlankIsSpace(p.d1);
    BlankIsSpace(p.v0);
    BlankIsSpace(p.v1);
    ContentIsClean(c.required);
    ContentIsClean(c.description);
    ContentIsClean(c.defaultValue);
    var s3 := PaddedCell(p.v0, c.defaultValue, p.v1) + rest;
    var s2 := PaddedCell(p.d0, c.description, p.d1) + s3;
    var s1 := PaddedCell(p.r0, c.required, p.r1) + s2;
    var key := p.k0 + ("`" + (c.key + ("`" + (p.k1 + "|"))));
    RowParts(c, p, rest, key, PaddedCell(p.r0, c.required, p.r1), PaddedCell(p.d0, c.description, p.d1),
             PaddedCell(p.v0, c.defaultValue, p.v1));
    KeyRead(p.k0, c.key, p.k1, s1);
    CellRead(p.r0, c.required, p.r1, s2);
    CellRead(p.d0, c.description, p.d1, s3);
    CellRead(p.v0, c.defaultValue, p.v1, rest);
    assert ("|" + (key + s1))[1..] == key + s1;
    MatchFrom("|" + (key + s1), RawCells(c, p), s1, s2, s3, rest);
  }

  /** The variable a row documents: required if its cell says `true`, without default if that cell is empty. */
  function Documented(c: Cells, index: nat): EnvVariable {
    EnvVariable(c.key, c.description, c.required == "true",
                if c.defaultValue == "" then None else Some(c.defaultValue), Some(index))
  }

  lemma PaddedVariable(c: Cells, p: Pads, index: nat)
    requires Contents(c) && Padding(p)
    ensures VariableOf(RawCells(c, p), index) == Documented(c, index)
  {
    BlankIsSpace(p.r1);
    BlankIsSpace(p.d1);
    BlankIsSpace(p.v1);
    ContentIsClean(c.required);
    ContentIsClean(c.description);
    ContentIsClean(c.defaultValue);
    TrimCaptured(c.required, p.r1);
    TrimCaptured(c.description, p.d1);
    TrimCaptured(c.defaultValue, p.v1);
  }

  // ---- whole tables ----

  /** A row and its line end. */
  function Line(c: Cells, p: Pads): string {
    PaddedRow(c, p) + "\n"
  }

  lemma LineScans(c: Cells, p: Pads)
    requires Contents(c) && Padding(p)
    ensures ScansTo(Line(c, p), RawCells(c, p))
  {
    forall rest ensures Scan(Line(c, p) + rest) == [RawCells(c, p)] + Scan(rest) {
      var s := "\n" + rest;
      assert Line(c, p) + rest == PaddedRow(c, p) + s;
      PaddedMatch(c, p, s);
      assert s[1..] == rest;
      assert Scan(s) == Scan(rest);
    }
  }

  function Lines(rows: seq<(Cells, Pads)>): seq<string> {
    seq(|rows|, i requires 0 <= i < |rows| => Line(rows[i].0, rows[i].1))
  }

  function Raws(rows: seq<(Cells, Pads)>): seq<RawRow> {
    seq(|rows|, i requires 0 <= i < |rows| => RawCells(rows[i].0, rows[i].1))
  }

  /** The characters of a key below 128, one after the other. */
  lemma AsciiPart(s: string, c: char)
    ensures FilterAscii("") == ""
    ensures FilterAscii([c] + s) == (if c as int < 128 then [c] else "") + FilterAscii(s)
  {
    assert ([c] + s)[1..] == s;
  }

  /** Row `i` is the last one with its id. */
  ghost predicate LastOfId(rows: seq<RawRow>, i: nat) {
    i < |rows| && forall j :: i < j < |rows| ==> FilterAscii(rows[j].key) != FilterAscii(rows[i].key)
  }

  ghost predicate HasRow(rows: seq<RawRow>, id: string) {
    exists i :: 0 <= i < |rows| && FilterAscii(rows[i].key) == id
  }

  lemma HasRowMore(rows: seq<RawRow>, last: RawRow, id: string)
    ensures HasRow(rows + [last], id) <==> HasRow(rows, id) || FilterAscii(last.key) == id
  {
    var all := rows + [last];
    assert all[|rows|] == last;
    if i :| 0 <= i < |rows| && FilterAscii(rows[i].key) == id {
      assert all[i] == rows[i];
    }
  }

  /** An id is collected precisely if a row has it. */
  lemma {:induction false} CollectedIff(rows: seq<RawRow>, id: string)
    ensures id in Collect(rows) <==> HasRow(rows, id)
  {
    if rows != [] {
      var n := |rows| - 1;
      CollectedIff(rows[..n], id);
      HasRowMore(rows[..n], rows[n], id);
      assert rows == rows[..n] + [rows[n]];
    }
  }

  /** The last row with an id is the one collected. */
  lemma {:induction false} CollectedLast(rows: seq<RawRow>, i: nat)
    requires LastOfId(rows, i)
    ensures FilterAscii(rows[i].key) in Collect(rows)
    ensures Collect(rows)[FilterAscii(rows[i].key)] == VariableOf(rows[i], i)
  {
    var n := |rows| - 1;
    if i < n {
      assert FilterAscii(rows[n].key) != FilterAscii(rows[i].key);
      CollectedLast(rows[..n], i);
    }
  }

  /** A table of rows padded in any way, after a header without backticks: its ids are the ASCII parts of the keys, and
      each stands for the last row that has it, with the position of that row as index. */
  lemma FormattedRead(header: string, rows: seq<(Cells, Pads)>)
    requires '`' !in header
    requires forall i :: 0 <= i < |rows| ==> Contents(rows[i].0) && Padding(rows[i].1)
    ensures var back := FromMarkdown(header + Join(Lines(rows)));
            && (forall id :: id in back <==> exists i :: 0 <= i < |rows| && FilterAscii(rows[i].0.key) == id)
            && (forall i :: 0 <= i < |rows|
                            && (forall j :: i < j < |rows|
                                            ==> FilterAscii(rows[j].0.key) != FilterAscii(rows[i].0.key))
                            ==> FilterAscii(rows[i].0.key) in back
                                && back[FilterAscii(rows[i].0.key)] == Documented(rows[i].0, i))
  {
    var raws := Raws(rows);
    forall i | 0 <= i < |rows| ensures ScansTo(Lines(rows)[i], raws[i]) {
      LineScans(rows[i].0, rows[i].1);
    }
    ScanTexts(Lines(rows), raws);
    assert rows != [] ==> Lines(rows)[0][0] == '|';
    ScanOver(header, Join(Lines(rows)));
    FormattedCollected(rows, raws, Collect(raws));
  }

  lemma RawKeys(rows: seq<(Cells, Pads)>, id: string)
    ensures HasRow(Raws(rows), id) <==> exists i :: 0 <= i < |rows| && FilterAscii(rows[i].0.key) == id
  {
    var raws := Raws(rows);
    if i :| 0 <= i < |raws| && FilterAscii(raws[i].key) == id {
      assert rows[i].0.key == raws[i].key;
    }
    if i :| 0 <= i < |rows| && FilterAscii(rows[i].0.key) == id {
      assert raws[i].key == rows[i].0.key;
    }
  }

  lemma LastRaw(rows: seq<(Cells, Pads)>, i: nat)
    requires i < |rows|
    requires forall j :: i < j < |rows| ==> FilterAscii(rows[j].0.key) != FilterAscii(rows[i].0.key)
    ensures LastOfId(Raws(rows), i)
  {
    var raws := Raws(rows);
    forall j | i < j < |raws| ensures FilterAscii(raws[j].key) != FilterAscii(raws[i].key) {
      assert raws[j].key == rows[j].0.key;
    }
  }

  lemma FormattedCollected(rows: seq<(Cells, Pads)>, raws: seq<RawRow>, back: Envs)
    requires forall i :: 0 <= i < |rows| ==> Contents(rows[i].0) && Padding(rows[i].1)
    requires raws == Raws(rows) && back == Collect(raws)
    ensures forall id :: id in back <==> exists i :: 0 <= i < |rows| && FilterAscii(rows[i].0.key) == id
    ensures forall i :: 0 <= i < |rows|
                        && (forall j :: i < j < |rows| ==> FilterAscii(rows[j].0.key) != FilterAscii(rows[i].0.key))
                        ==> FilterAscii(rows[i].0.key) in back
                            && back[FilterAscii(rows[i].0.key)] == Documented(rows[i].0, i)
  {
    forall id ensures id in back <==> exists i :: 0 <= i < |rows| && FilterAscii(rows[i].0.key) == id {
      RawKeys(rows, id);
      CollectedIff(raws, id);
    }
    forall i | 0 <= i < |rows|
               && (forall j :: i < j < |rows| ==> FilterAscii(rows[j].0.key) != FilterAscii(rows[i].0.key))
      ensures FilterAscii(rows[i].0.key) in back && back[FilterAscii(rows[i].0.key)] == Documented(rows[i].0, i)
    {
      LastRaw(rows, i);
      CollectedLast(raws, i);
      PaddedVariable(rows[i].0, rows[i].1, i);
      assert raws[i] == RawCells(rows[i].0, rows[i].1);
    }
  }
}

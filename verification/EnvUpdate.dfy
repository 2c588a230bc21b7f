/** Updating a documented table from the variables of a configuration, and finding what it lacks. */
module EnvUpdate {
  import opened Prelude
  import opened EnvSort
  import opened EnvTable

  /** The merge keeps what is documented: an id already present is not overridden. */
  function UpdateNoOverride(vars: Envs, other: Envs): (r: Envs)
    ensures r.Keys == vars.Keys + other.Keys && Submap(vars, r)
    ensures forall id :: id in other && id !in vars ==> r[id] == other[id]
  {
    other + vars
  }

  method UpdateNoOverrideLoop(vars: Envs, other: Envs) returns (r: Envs)
    ensures r == UpdateNoOverride(vars, other)
  {
    r := vars;
    var rest := other.Keys;
    while rest != {}
      invariant rest <= other.Keys && r.Keys == vars.Keys + (other.Keys - rest)
      invariant forall id :: id in r ==> r[id] == if id in vars then vars[id] else other[id]
    {
      var id :| id in rest;
      if id !in r {
        r := r[id := other[id]];
      }
      rest := rest - {id};
    }
  }

  /** The table after an update: read, merge, print. */
  function UpdateTable(table: string, config: Envs): string {
    ToTable(UpdateNoOverride(FromMarkdown(table), config))
  }

  predicate EqWithIgnores(a: EnvVariable, b: EnvVariable) {
    FilterAscii(a.key) == FilterAscii(b.key) && a.required == b.required
  }

  /** The variables of the configuration that the documentation lacks or flags otherwise. */
  function Missing(config: Envs, documented: Envs): set<string> {
    set id | id in config && (id !in documented || !EqWithIgnores(documented[id], config[id]))
  }

  lemma {:induction false} AsciiKept(s: string)
    requires forall i :: 0 <= i < |s| ==> s[i] as int < 128
    ensures FilterAscii(s) == s
  {
    if s != "" {
      AsciiKept(s[1..]);
    }
  }

  /** For any text and any configuration under ASCII keys: a variable is reported precisely if the configuration has it
      and either nothing in the table has its id, or what has it there is flagged otherwise. */
  lemma MissingIff(table: string, config: Envs, id: string)
    requires forall k :: k in config ==> config[k].key == k && forall i :: 0 <= i < |k| ==> k[i] as int < 128
    ensures id in Missing(config, FromMarkdown(table))
            <==> id in config && (id !in FromMarkdown(table)
                                  || FromMarkdown(table)[id].required != config[id].required)
  {
    FromMarkdownClean(table);
    if id in config {
      AsciiKept(id);
    }
  }

  /** What a configuration yields: clean variables under ASCII keys, in no order. */
  ghost predicate FromConfig(config: Envs) {
    Clean(config) && Unordered(config)
  }

  ghost predicate Unordered(config: Envs) {
    forall id :: id in config ==> config[id].tableIndex.None?
  }

  /** Whatever the text and the configuration: merging never makes two variables share an index, and what it yields is
      clean precisely when the variables it adds are. */
  lemma MergeClean(table: string, config: Envs)
    requires Unordered(config)
    ensures var merged := UpdateNoOverride(FromMarkdown(table), config);
            && DistinctIndices(merged)
            && (Clean(merged) <==> Clean(map id | id in config && id !in FromMarkdown(table) :: config[id]))
  {
    FromMarkdownClean(table);
    MergeOk(FromMarkdown(table), config);
  }

  lemma MergeOk(documented: Envs, config: Envs)
    requires Clean(documented) && DistinctIndices(documented) && Unordered(config)
    ensures DistinctIndices(UpdateNoOverride(documented, config))
    ensures Clean(UpdateNoOverride(documented, config))
            <==> Clean(map id | id in config && id !in documented :: config[id])
  {
    var merged := UpdateNoOverride(documented, config);
    var added := map id | id in config && id !in documented :: config[id];
    forall id | id in merged ensures merged[id] == if id in documented then documented[id] else added[id] {
    }
    forall id | id in added ensures id in merged && merged[id] == added[id] {
    }
  }

  /** Variables whose indices are exactly their printed positions are printed in index order. */
  lemma SortedDense(vars: Envs, ids: seq<string>)
    requires |ids| == |vars| && (forall i :: 0 <= i < |ids| ==> ids[i] in vars && vars[ids[i]].tableIndex == Some(i))
    requires DistinctIndices(vars) && (forall id :: id in vars ==> id in ids)
    ensures SortedIds(vars) == ids
  {
    SortedIdsOnce(vars);
    assert Unindexed(vars) == {} by {
      forall id | id in vars ensures vars[id].tableIndex.Some? {
        var i :| 0 <= i < |ids| && ids[i] == id;
      }
    }
    forall i | 0 <= i < |ids| ensures SortedIds(vars)[i] == ids[i] {
      IndexedPosition(vars, ids[i]);
      DenseRank(vars, ids, i);
    }
  }

  lemma DenseRank(vars: Envs, ids: seq<string>, k: nat)
    requires k < |ids| && (forall i :: 0 <= i < |ids| ==> ids[i] in vars && vars[ids[i]].tableIndex == Some(i))
    ensures |Smaller(Indices(vars), k)| >= k
  {
    UpTo(k, Smaller(Indices(vars), k), vars, ids);
  }

  lemma {:induction false} UpTo(k: nat, s: set<nat>, vars: Envs, ids: seq<string>)
    requires k <= |ids| && (forall i :: 0 <= i < |ids| ==> ids[i] in vars && vars[ids[i]].tableIndex == Some(i))
    requires s == Smaller(Indices(vars), k)
    ensures |s| >= k
  {
    if k > 0 {
      var rest := Smaller(Indices(vars), k - 1);
      UpTo(k - 1, rest, vars, ids);
      assert ids[k - 1] in vars && k - 1 in Indices(vars);
      assert rest + {k - 1} <= s;
      Larger(rest + {k - 1}, s);
    }
  }

  lemma {:induction false} Larger(a: set<nat>, b: set<nat>)
    requires a <= b
    ensures |a| <= |b|
  {
    if a != {} {
      var x :| x in a;
      Larger(a - {x}, b - {x});
    }
  }

  /** Rows do not show the index. */
  lemma SameTable(a: Envs, b: Envs)
    requires SortedIds(a) == SortedIds(b)
    requires forall id :: id in SortedIds(a) ==> id in a && id in b && b[id] == a[id].(tableIndex := b[id].tableIndex)
    ensures ToTable(a) == ToTable(b)
  {
    SortedIdsKnown(a);
    SortedIdsKnown(b);
    forall i | 0 <= i < |SortedIds(a)| ensures RowText(Sorted(a)[i]) == RowText(Sorted(b)[i]) {
      assert SortedIds(a)[i] in SortedIds(a);
    }
    assert Texts(Sorted(a)) == Texts(Sorted(b));
  }

  /** What is read back from a printed table prints as the same table. */
  lemma PrintReadPrint(vars: Envs)
    requires Clean(vars) && DistinctIndices(vars)
    ensures ToTable(FromMarkdown(ToTable(vars))) == ToTable(vars)
  {
    RoundTrip(vars);
    SortedIdsOnce(vars);
    FromMarkdownClean(ToTable(vars));
    SamePrint(vars, FromMarkdown(ToTable(vars)), SortedIds(vars));
  }

  /** Variables that carry their printed positions as indices print as before. */
  lemma SamePrint(vars: Envs, back: Envs, ids: seq<string>)
    requires ids == SortedIds(vars) && |ids| == |vars| && (forall id :: id in ids <==> id in vars)
    requires back.Keys == vars.Keys && DistinctIndices(back)
    requires forall i :: 0 <= i < |ids| ==> back[ids[i]] == vars[ids[i]].(tableIndex := Some(i))
    ensures ToTable(back) == ToTable(vars)
  {
    assert |back| == |back.Keys| && |vars| == |vars.Keys|;
    SortedDense(back, ids);
    SameTable(vars, back);
  }

  /** `a` and `b` agree in all that a row shows. */
  predicate SameRow(a: EnvVariable, b: EnvVariable) {
    b == a.(tableIndex := b.tableIndex)
  }

  lemma ReadBack(vars: Envs, back: Envs)
    requires Clean(vars) && DistinctIndices(vars) && back == FromMarkdown(ToTable(vars))
    ensures back.Keys == vars.Keys && forall id :: id in vars ==> SameRow(vars[id], back[id])
  {
    RoundTrip(vars);
    SortedIdsOnce(vars);
    forall id | id in vars ensures id in back && SameRow(vars[id], back[id]) {
      var i :| 0 <= i < |SortedIds(vars)| && SortedIds(vars)[i] == id;
    }
  }

  lemma NothingToMerge(vars: Envs, other: Envs)
    requires other.Keys <= vars.Keys
    ensures UpdateNoOverride(vars, other) == vars
  {
  }

  /** Updating twice from one configuration is updating once, whatever text the table started from. */
  lemma UpdateIsIdempotent(table: string, config: Envs)
    requires FromConfig(config)
    ensures UpdateTable(UpdateTable(table, config), config) == UpdateTable(table, config)
  {
    MergeClean(table, config);
    MergeTwice(UpdateNoOverride(FromMarkdown(table), config), config);
  }

  lemma MergeTwice(merged: Envs, config: Envs)
    requires Clean(merged) && DistinctIndices(merged) && config.Keys <= merged.Keys
    ensures UpdateTable(ToTable(merged), config) == ToTable(merged)
  {
    ReadBack(merged, FromMarkdown(ToTable(merged)));
    NothingToMerge(FromMarkdown(ToTable(merged)), config);
    PrintReadPrint(merged);
  }

  /** After an update the variables still missing are exactly those that were already documented with the
      opposite `required` flag. */
  lemma MissingAfterUpdate(table: string, config: Envs)
    requires FromConfig(config)
    ensures Missing(config, FromMarkdown(UpdateTable(table, config)))
            == set id | id in config && id in FromMarkdown(table)
                        && FromMarkdown(table)[id].required != config[id].required
  {
    var merged := UpdateNoOverride(FromMarkdown(table), config);
    MergeClean(table, config);
    FromMarkdownClean(table);
    ReadBack(merged, FromMarkdown(ToTable(merged)));
    MissingAfterMerge(FromMarkdown(table), config, FromMarkdown(ToTable(merged)));
  }

  lemma MissingAfterMerge(documented: Envs, config: Envs, back: Envs)
    requires Clean(documented) && Clean(config) && back.Keys == documented.Keys + config.Keys
    requires forall id :: id in documented ==> SameRow(documented[id], back[id])
    requires forall id :: id in config && id !in documented ==> SameRow(config[id], back[id])
    ensures Missing(config, back)
            == set id | id in config && id in documented && documented[id].required != config[id].required
  {
    forall id | id in config
      ensures EqWithIgnores(back[id], config[id])
              <==> !(id in documented && documented[id].required != config[id].required)
    {
    }
  }

  /** Clean variables are all read back exactly when no two share an index. */
  lemma RoundTripIffDistinct(vars: Envs)
    requires Clean(vars)
    ensures FromMarkdown(ToTable(vars)).Keys == vars.Keys <==> DistinctIndices(vars)
  {
    if DistinctIndices(vars) {
      RoundTrip(vars);
    }
    if FromMarkdown(ToTable(vars)).Keys == vars.Keys {
      ReadPrinted(vars);
      SortedIdsKnown(vars);
      var ids := SortedIds(vars);
      forall id | id in vars.Keys ensures id in ids {
        ReadOnlyPrinted(Sorted(vars), id);
        var i :| 0 <= i < |ids| && FilterAscii(Sorted(vars)[i].key) == id;
        assert ids[i] in vars;
      }
      CoverBound(ids, vars.Keys);
      assert |vars| == |vars.Keys|;
      PermutationIffDistinct(vars);
    }
  }

  /** Reading back gives the same variables up to their index. */
  ghost predicate SameVariables(vars: Envs, back: Envs) {
    back.Keys == vars.Keys && forall id :: id in vars ==> SameRow(vars[id], back[id])
  }

  /** For all variables: printing and reading back gives the same ones up to their index precisely when they are clean
      and no two share an index. */
  lemma RoundTripIff(vars: Envs)
    ensures SameVariables(vars, FromMarkdown(ToTable(vars))) <==> Clean(vars) && DistinctIndices(vars)
  {
    var back := FromMarkdown(ToTable(vars));
    if Clean(vars) && DistinctIndices(vars) {
      ReadBack(vars, back);
    }
    if SameVariables(vars, back) {
      FromMarkdownClean(ToTable(vars));
      SameAsClean(vars, back);
      RoundTripIffDistinct(vars);
    }
  }

  lemma SameAsClean(vars: Envs, back: Envs)
    requires SameVariables(vars, back) && Clean(back)
    ensures Clean(vars)
  {
    forall id | id in vars ensures CleanVariable(vars[id]) && FilterAscii(vars[id].key) == id {
      assert SameRow(vars[id], back[id]);
    }
  }

  lemma ReadOnlyPrinted(vs: seq<EnvVariable>, id: string)
    requires id in Collect(RawsOf(vs))
    ensures exists i :: 0 <= i < |vs| && FilterAscii(vs[i].key) == id
  {
    CollectOk(RawsOf(vs));
    var v := Collect(RawsOf(vs))[id];
    assert FromRow(RawsOf(vs), id, v);
    assert v.key == vs[v.tableIndex.value].key;
  }

  /** An update prints every variable, documented or new, whatever the text and the configuration: reading and merging
      never make two share an index. */
  lemma UpdatePrintsAll(table: string, config: Envs)
    requires Unordered(config)
    ensures var merged := UpdateNoOverride(FromMarkdown(table), config);
            |SortedIds(merged)| == |merged| && forall id :: id in merged ==> id in SortedIds(merged)
  {
    MergeClean(table, config);
    SortedIdsOnce(UpdateNoOverride(FromMarkdown(table), config));
  }
}

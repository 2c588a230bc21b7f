/** What every reachable database satisfies, and what every step keeps. */
module AllianceInvariant {
  import opened Prelude
  import opened AllianceTypes
  import opened AllianceTables
  import opened AllianceStore

  // ---- the invariant, table by table ----

  /** Content is stored under its own hash; the empty hash stands for absent code. */
  ghost predicate CodeOk(h: Hasher, t: map<Bytes, CodeRow>) {
    && [] in t
    && forall k :: k in t ==>
         match t[k].code
         case None => k == []
         case Some(c) => k == h.sha256(c) && t[k].keccak == h.keccak256(c)
  }

  ghost predicate ContractsOk(t: seq<ContractRow>, code: map<Bytes, CodeRow>) {
    && UniqueKeys(t, ContractKey)
    && forall i :: 0 <= i < |t| ==>
         t[i].creationCodeHash in code && t[i].runtimeCodeHash in code && t[i].runtimeCodeHash != []
  }

  ghost predicate DeploymentsOk(t: seq<DeploymentRow>, contracts: nat) {
    && UniqueKeys(t, DeploymentKey)
    && forall i :: 0 <= i < |t| ==> t[i].contractId < contracts
  }

  ghost predicate CompiledOk(t: seq<CompiledRow>, code: map<Bytes, CodeRow>) {
    && UniqueKeys(t, CompiledKey)
    && forall i :: 0 <= i < |t| ==> CompiledRowOk(t[i], code)
  }

  ghost predicate CompiledRowOk(r: CompiledRow, code: map<Bytes, CodeRow>) {
    && r.creationCodeHash in code && r.creationCodeHash != []
    && r.runtimeCodeHash in code && r.runtimeCodeHash != []
    && (r.compiler == "solc" || r.compiler == "vyper")
    && (r.language == "solidity" || r.language == "yul" || r.language == "vyper")
  }

  ghost predicate SourcesOk(h: Hasher, t: map<Bytes, SourceRow>) {
    forall k :: k in t ==> k == h.sha256(t[k].content) && t[k].keccak == h.keccak256(t[k].content)
  }

  ghost predicate LinksOk(t: map<nat, map<string, Bytes>>, compiled: nat, sources: map<Bytes, SourceRow>) {
    forall id :: id in t ==> id < compiled && Resolve(t[id], sources)
  }

  ghost predicate ColumnsOk(c: MatchColumns) {
    c.doesMatch == c.metadataMatch.Some? == c.values.Some? == c.transformations.Some?
  }

  ghost predicate VerifiedRowOk(r: VerifiedRow) {
    ColumnsOk(r.creation) && ColumnsOk(r.runtime) && (r.creation.doesMatch || r.runtime.doesMatch)
  }

  ghost predicate VerifiedOk(t: seq<VerifiedRow>, compiled: nat, deployments: nat) {
    && UniqueKeys(t, VerifiedKey)
    && forall i :: 0 <= i < |t| ==>
         t[i].compilationId < compiled && t[i].deploymentId < deployments && VerifiedRowOk(t[i])
  }

  /** No row without a metadata match is componentwise at most an earlier row of its deployment: it matches on a side
      on which the earlier one does not. */
  ghost predicate GateOk(t: seq<VerifiedRow>) {
    forall i, j :: 0 <= i < j < |t| && t[i].deploymentId == t[j].deploymentId
                   && t[j].creation.metadataMatch != Some(true) && t[j].runtime.metadataMatch != Some(true)
                   ==> || (t[j].creation.doesMatch && !t[i].creation.doesMatch)
                       || (t[j].runtime.doesMatch && !t[i].runtime.doesMatch)
  }

  ghost predicate Inv(h: Hasher, db: Db) {
    && CodeOk(h, db.code)
    && ContractsOk(db.contracts, db.code)
    && DeploymentsOk(db.deployments, |db.contracts|)
    && CompiledOk(db.compiled, db.code)
    && SourcesOk(h, db.sources)
    && LinksOk(db.links, |db.compiled|, db.sources)
    && VerifiedOk(db.verified, |db.compiled|, |db.deployments|)
    && GateOk(db.verified)
  }

  /** Every row of `db` is still there, unchanged and under the same id, in `db'`. */
  ghost predicate Extends(db: Db, db': Db) {
    && Submap(db.code, db'.code) && Submap(db.sources, db'.sources)
    && (forall id :: id in db.links ==> id in db'.links && Submap(db.links[id], db'.links[id]))
    && db.contracts <= db'.contracts && db.deployments <= db'.deployments
    && db.compiled <= db'.compiled && db.verified <= db'.verified
  }

  // ---- the pieces of a step ----

  lemma InsertCodeOk(h: Hasher, t: map<Bytes, CodeRow>, code: Bytes)
    requires CodeOk(h, t)
    ensures CodeOk(h, InsertCode(h, t, code)) && Submap(t, InsertCode(h, t, code))
    ensures h.sha256(code) != [] && h.sha256(code) in InsertCode(h, t, code)
    ensures InsertCode(h, t, code)[h.sha256(code)].code == Some(code)
  {
    Injective(h);
  }

  lemma InsertContractOk(h: Hasher, db: Db, c: ContractCode)
    requires CodeOk(h, db.code) && ContractsOk(db.contracts, db.code)
    ensures var (db', id) := InsertContract(h, db, c);
            && CodeOk(h, db'.code) && Submap(db.code, db'.code)
            && ContractsOk(db'.contracts, db'.code) && db.contracts <= db'.contracts
            && id < |db'.contracts|
            && db'.contracts[id] == InsertContractCode(h, db.code, c).1
            && db' == db.(code := db'.code, contracts := db'.contracts)
  {
    match c {
      case OnlyRuntimeCode(code) =>
        InsertCodeOk(h, db.code, code);
      case CompleteCode(creation, runtime) =>
        InsertCodeOk(h, db.code, creation);
        InsertCodeOk(h, InsertCode(h, db.code, creation), runtime);
    }
    InsertSerialUnique(db.contracts, ContractKey, InsertContractCode(h, db.code, c).1);
  }

  lemma InsertDeploymentStep(h: Hasher, db: Db, d: InsertContractDeployment, now: int)
    requires Inv(h, db)
    ensures Inv(h, InsertDeployment(h, db, d, now).0) && Extends(db, InsertDeployment(h, db, d, now).0)
  {
    if FitsDecimal(d) {
      var data := ParseDeployment(h, d);
      InsertContractOk(h, db, data.contractCode);
      var (db1, contractId) := InsertContract(h, db, data.contractCode);
      InsertSerialUnique(db1.deployments, DeploymentKey, DeploymentRowOf(data, contractId, now));
      assert CompiledOk(db.compiled, db1.code);
    }
  }

  lemma CompiledRowIsOk(h: Hasher, c: CompiledContract, code: map<Bytes, CodeRow>)
    requires h.sha256(c.creationCode) in code && h.sha256(c.runtimeCode) in code
    ensures CompiledRowOk(CompiledRowOf(h, c), code)
    ensures CompilerOf(ToLower(CompilerName(c.compiler))) == Some(c.compiler)
    ensures LanguageOf(ToLower(LanguageName(c.language))) == Some(c.language)
  {
    assert ToLower("solc") == "solc" && ToLower("vyper") == "vyper";
    assert ToLower("solidity") == "solidity" && ToLower("yul") == "yul";
  }

  lemma InsertCompiledOk(h: Hasher, db: Db, c: CompiledContract)
    requires CodeOk(h, db.code) && CompiledOk(db.compiled, db.code)
    ensures var (db', id) := InsertCompiled(h, db, c);
            && CodeOk(h, db'.code) && Submap(db.code, db'.code)
            && CompiledOk(db'.compiled, db'.code) && db.compiled <= db'.compiled
            && id < |db'.compiled| && CompiledKey(db'.compiled[id]) == CompiledKey(CompiledRowOf(h, c))
            && db' == db.(code := db'.code, compiled := db'.compiled)
  {
    InsertCodeOk(h, db.code, c.creationCode);
    InsertCodeOk(h, InsertCode(h, db.code, c.creationCode), c.runtimeCode);
    var db' := InsertCompiled(h, db, c).0;
    CompiledRowIsOk(h, c, db'.code);
    InsertSerialUnique(db.compiled, CompiledKey, CompiledRowOf(h, c));
  }

  lemma InsertSourcesOk(h: Hasher, t: map<Bytes, SourceRow>, contents: set<Bytes>)
    requires SourcesOk(h, t)
    ensures SourcesOk(h, InsertSources(h, t, contents)) && Submap(t, InsertSources(h, t, contents))
    ensures forall c :: c in contents ==>
              h.sha256(c) in InsertSources(h, t, contents)
              && InsertSources(h, t, contents)[h.sha256(c)].content == c
  {
    Injective(h);
  }

  /** Every path of a submitted source map leads, through its hash, to its own content. */
  lemma SourcesWritten(h: Hasher, t: map<Bytes, SourceRow>, sources: map<string, Bytes>)
    requires SourcesOk(h, t)
    ensures var t' := InsertSources(h, t, sources.Values);
            var hashes := SourceHashes(h, sources);
            && SourcesOk(h, t') && Submap(t, t') && hashes.Keys == sources.Keys
            && forall path :: path in sources ==> hashes[path] in t' && t'[hashes[path]].content == sources[path]
  {
    InsertSourcesOk(h, t, sources.Values);
    forall path | path in sources ensures sources[path] in sources.Values {
    }
  }

  lemma LinksWritten(t: map<nat, map<string, Bytes>>, compiled: nat, sources: map<Bytes, SourceRow>,
                     hashes: map<string, Bytes>, id: nat, sources': map<Bytes, SourceRow>)
    requires LinksOk(t, compiled, sources) && Submap(sources, sources') && Resolve(hashes, sources')
    ensures var t' := InsertLinks(t, hashes, id);
            && LinksOk(t', if id < compiled then compiled else id + 1, sources')
            && (forall i :: i in t ==> i in t' && Submap(t[i], t'[i]))
  {
  }

  lemma RowStatusesOf(deploymentId: nat, compilationId: nat, m: Matches)
    ensures RowStatuses(VerifiedRowOf(deploymentId, compilationId, m)) == Statuses(m)
    ensures VerifiedRowOk(VerifiedRowOf(deploymentId, compilationId, m))
    ensures MatchesOf(VerifiedRowOf(deploymentId, compilationId, m)) == Ok(m)
  {
  }

  /** What the gate asks of a candidate, in terms of the flags submitted and the columns there are: one of its sides
      matches the metadata, or every row of the deployment lacks a match on a side that the candidate matches. */
  ghost predicate Passes(t: seq<VerifiedRow>, deploymentId: nat, m: Matches) {
    || (!m.OnlyRuntime? && m.creationMatch.metadataMatch)
    || (!m.OnlyCreation? && m.runtimeMatch.metadataMatch)
    || forall i :: 0 <= i < |t| && t[i].deploymentId == deploymentId
                   ==> || (!m.OnlyRuntime? && !t[i].creation.doesMatch)
                       || (!m.OnlyCreation? && !t[i].runtime.doesMatch)
  }

  /** The comparison of status pairs comes to just that. */
  lemma PassesIff(t: seq<VerifiedRow>, deploymentId: nat, m: Matches)
    ensures ShouldStore(t, deploymentId, m) <==> Passes(t, deploymentId, m)
  {
    if !m.OnlyRuntime? && m.creationMatch.metadataMatch {
      assert HasMetadata(Statuses(m));
    } else if !m.OnlyCreation? && m.runtimeMatch.metadataMatch {
      assert HasMetadata(Statuses(m));
    } else {
      forall i | 0 <= i < |t|
        ensures IsWorse(RowStatuses(t[i]), Statuses(m))
                <==> || (!m.OnlyRuntime? && !t[i].creation.doesMatch)
                     || (!m.OnlyCreation? && !t[i].runtime.doesMatch)
      {
      }
    }
  }

  lemma AppendGate(t: seq<VerifiedRow>, deploymentId: nat, compilationId: nat, m: Matches)
    requires GateOk(t) && Passes(t, deploymentId, m)
    ensures GateOk(t + [VerifiedRowOf(deploymentId, compilationId, m)])
  {
  }

  lemma InsertVerifiedRowOk(t: seq<VerifiedRow>, deploymentId: nat, compilationId: nat, m: Matches,
                            compiled: nat, deployments: nat)
    requires VerifiedOk(t, compiled, deployments) && GateOk(t) && ShouldStore(t, deploymentId, m)
    requires deploymentId < deployments && compilationId < compiled
    ensures var t' := InsertSerial(t, VerifiedKey, VerifiedRowOf(deploymentId, compilationId, m)).0;
            VerifiedOk(t', compiled, deployments) && GateOk(t')
  {
    var row := VerifiedRowOf(deploymentId, compilationId, m);
    RowStatusesOf(deploymentId, compilationId, m);
    InsertSerialUnique(t, VerifiedKey, row);
    PassesIff(t, deploymentId, m);
    AppendGate(t, deploymentId, compilationId, m);
  }

  lemma WriteVerifiedShape(h: Hasher, db: Db, v: VerifiedContract)
    ensures var (db', id) := WriteVerified(h, db, v);
            && db'.code == InsertCompiled(h, db, v.compiledContract).0.code
            && (db'.compiled, id) == InsertSerial(db.compiled, CompiledKey, CompiledRowOf(h, v.compiledContract))
            && db'.links == InsertLinks(db.links, SourceHashes(h, v.compiledContract.sources), id)
            && db'.sources == InsertSources(h, db.sources, v.compiledContract.sources.Values)
            && db'.verified == InsertSerial(db.verified, VerifiedKey,
                                            VerifiedRowOf(v.contractDeploymentId, id, v.matches)).0
            && db'.deployments == db.deployments && db'.contracts == db.contracts
  {
  }

  /** The tables other than `verified` after the inserts of an accepted contract. */
  lemma WriteVerifiedTables(h: Hasher, db: Db, v: VerifiedContract)
    requires Inv(h, db)
    ensures var (db', id) := WriteVerified(h, db, v);
            && CodeOk(h, db'.code) && Submap(db.code, db'.code)
            && CompiledOk(db'.compiled, db'.code) && db.compiled <= db'.compiled && id < |db'.compiled|
            && SourcesOk(h, db'.sources) && Submap(db.sources, db'.sources)
            && LinksOk(db'.links, |db'.compiled|, db'.sources)
            && (forall i :: i in db.links ==> i in db'.links && Submap(db.links[i], db'.links[i]))
  {
    var (db', id) := WriteVerified(h, db, v);
    WriteVerifiedShape(h, db, v);
    InsertCompiledOk(h, db, v.compiledContract);
    SourcesWritten(h, db.sources, v.compiledContract.sources);
    LinksWritten(db.links, |db.compiled|, db.sources, SourceHashes(h, v.compiledContract.sources), id, db'.sources);
  }

  lemma InsertVerifiedStep(h: Hasher, db: Db, v: VerifiedContract)
    requires Inv(h, db)
    ensures Inv(h, InsertVerified(h, db, v).0) && Extends(db, InsertVerified(h, db, v).0)
  {
    if VerifyOutcome(db, v).Ok? {
      WriteVerifiedTables(h, db, v);
      WriteVerifiedShape(h, db, v);
      var (db', id) := WriteVerified(h, db, v);
      assert VerifiedOk(db.verified, |db'.compiled|, |db'.deployments|);
      InsertVerifiedRowOk(db.verified, v.contractDeploymentId, id, v.matches, |db'.compiled|, |db'.deployments|);
    }
  }

  // ---- runs ----

  lemma ApplyStep(h: Hasher, db: Db, op: Op)
    requires Inv(h, db)
    ensures Inv(h, Apply(h, db, op)) && Extends(db, Apply(h, db, op))
  {
    match op {
      case Deploy(d, now) => InsertDeploymentStep(h, db, d, now);
      case Verify(v) => InsertVerifiedStep(h, db, v);
    }
  }

  /** Every serial run keeps the invariant and never removes, moves or changes a row. */
  lemma {:induction false} RunStep(h: Hasher, db: Db, ops: seq<Op>)
    requires Inv(h, db)
    ensures Inv(h, Run(h, db, ops)) && Extends(db, Run(h, db, ops))
  {
    if ops != [] {
      var n := |ops| - 1;
      RunStep(h, db, ops[..n]);
      ApplyStep(h, Run(h, db, ops[..n]), ops[n]);
    }
  }

  lemma EmptyOk(h: Hasher)
    ensures Inv(h, EMPTY)
  {
  }

  lemma {:induction false} RunConcat(h: Hasher, db: Db, a: seq<Op>, b: seq<Op>)
    ensures Run(h, db, a + b) == Run(h, Run(h, db, a), b)
  {
    if b == [] {
      assert a + b == a;
    } else {
      var n := |b| - 1;
      assert (a + b)[..|a + b| - 1] == a + b[..n];
      RunConcat(h, db, a, b[..n]);
    }
  }
}

/** The store as an object: the methods write the tables in the order the transactions do. */
module AllianceDatabase {
  import opened Prelude
  import opened AllianceTypes
  import opened AllianceTables
  import opened AllianceStore
  import opened AllianceInvariant

  class Database {
    var code: map<Bytes, CodeRow>
    var contracts: seq<ContractRow>
    var deployments: seq<DeploymentRow>
    var compiled: seq<CompiledRow>
    var sources: map<Bytes, SourceRow>
    var links: map<nat, map<string, Bytes>>
    var verified: seq<VerifiedRow>

    function Snapshot(): Db
      reads this
    {
      Db(code, contracts, deployments, compiled, sources, links, verified)
    }

    constructor ()
      ensures Snapshot() == EMPTY
    {
      code := map[[] := CodeRow([], None)];
      contracts, deployments, compiled, verified := [], [], [], [];
      sources, links := map[], map[];
    }

    method Rollback(db: Db)
      modifies this
      ensures Snapshot() == db
    {
      code, contracts, deployments, compiled := db.code, db.contracts, db.deployments, db.compiled;
      sources, links, verified := db.sources, db.links, db.verified;
    }

    method WriteCode(h: Hasher, content: Bytes) returns (hash: Bytes)
      modifies this`code
      ensures code == InsertCode(h, old(code), content) && hash == h.sha256(content)
    {
      hash := h.sha256(content);
      if hash !in code {
        code := code[hash := CodeRow(h.keccak256(content), Some(content))];
      }
    }

    method WriteContract(h: Hasher, contractCode: ContractCode) returns (id: nat)
      modifies this`code, this`contracts
      ensures (Snapshot(), id) == InsertContract(h, old(Snapshot()), contractCode)
    {
      var creationCodeHash, runtimeCodeHash := [], [];
      match contractCode {
        case OnlyRuntimeCode(content) =>
          runtimeCodeHash := WriteCode(h, content);
        case CompleteCode(creation, runtime) =>
          creationCodeHash := WriteCode(h, creation);
          runtimeCodeHash := WriteCode(h, runtime);
      }
      var inserted;
      contracts, id, inserted :=
        InsertThenSelect(contracts, ContractKey, ContractRow(creationCodeHash, runtimeCodeHash));
    }

    method InsertContractDeployment(h: Hasher, d: InsertContractDeployment, now: int)
      returns (r: Result<ContractDeployment, Error>)
      modifies this
      ensures (Snapshot(), r) == InsertDeployment(h, old(Snapshot()), d, now)
    {
      if !FitsDecimal(d) {
        return Err(DecimalOverflow);
      }
      var data := ParseDeployment(h, d);
      var contractId := WriteContract(h, data.contractCode);
      var id, inserted;
      deployments, id, inserted := InsertThenSelect(deployments, DeploymentKey, DeploymentRowOf(data, contractId, now));
      r := Ok(ContractDeployment(id, d.chainId, d.address, d.runtimeCode, d.CreationCode(), deployments[id]));
    }

    /** Whether no row of the deployment is at least as good as the candidate. */
    method ShouldStoreTheMatch(deploymentId: nat, m: Matches) returns (b: bool)
      ensures b == ShouldStore(verified, deploymentId, m)
      ensures b <==> Passes(verified, deploymentId, m)
    {
      PassesIff(verified, deploymentId, m);
      var candidate := Statuses(m);
      if HasMetadata(candidate) {
        return true;
      }
      var i := 0;
      while i < |verified|
        invariant 0 <= i <= |verified|
        invariant forall j :: 0 <= j < i && verified[j].deploymentId == deploymentId
                              ==> IsWorse(RowStatuses(verified[j]), candidate)
      {
        if verified[i].deploymentId == deploymentId && !IsWorse(RowStatuses(verified[i]), candidate) {
          return false;
        }
        i := i + 1;
      }
      b := true;
    }

    method WriteCompiled(h: Hasher, c: CompiledContract) returns (id: nat)
      modifies this`code, this`compiled
      ensures (Snapshot(), id) == InsertCompiled(h, old(Snapshot()), c)
    {
      var _ := WriteCode(h, c.creationCode);
      var _ := WriteCode(h, c.runtimeCode);
      var inserted;
      compiled, id, inserted := InsertThenSelect(compiled, CompiledKey, CompiledRowOf(h, c));
    }

    method WriteSources(h: Hasher, added: map<string, Bytes>)
      modifies this`sources
      ensures sources == InsertSources(h, old(sources), added.Values)
    {
      var rest := added.Keys;
      ghost var done: set<Bytes> := {};
      while rest != {}
        invariant rest <= added.Keys
        invariant forall path :: path in added ==> path in rest || added[path] in done
        invariant forall c :: c in done ==> c in added.Values
        invariant sources == InsertSources(h, old(sources), done)
      {
        var path :| path in rest;
        var content := added[path];
        InsertOneMore(h, old(sources), done, content);
        if h.sha256(content) !in sources {
          sources := sources[h.sha256(content) := SourceRow(h.keccak256(content), content)];
        }
        rest := rest - {path};
        done := done + {content};
      }
      assert done == added.Values;
    }

    method WriteLinks(hashes: map<string, Bytes>, compilationId: nat)
      modifies this`links
      ensures links == InsertLinks(old(links), hashes, compilationId)
    {
      var held := LinksOf(links, compilationId);
      var rest := hashes.Keys;
      var merged := held;
      while rest != {}
        invariant rest <= hashes.Keys
        invariant merged.Keys == held.Keys + (hashes.Keys - rest)
        invariant forall path :: path in merged ==>
                    merged[path] == if path in held then held[path] else hashes[path]
      {
        var path :| path in rest;
        if path !in merged {
          merged := merged[path := hashes[path]];
        }
        rest := rest - {path};
      }
      assert merged == hashes + held;
      links := links[compilationId := merged];
    }

    method WriteVerifiedRow(row: VerifiedRow)
      modifies this`verified
      ensures verified == InsertSerial(old(verified), VerifiedKey, row).0
    {
      var id, inserted;
      verified, id, inserted := InsertThenSelect(verified, VerifiedKey, row);
    }

    /** The sources of a compilation and the links to them. */
    method WriteSourcesAndLinks(h: Hasher, added: map<string, Bytes>, hashes: map<string, Bytes>, id: nat)
      modifies this`sources, this`links
      ensures Snapshot() == old(Snapshot()).(sources := InsertSources(h, old(sources), added.Values),
                                             links := InsertLinks(old(links), hashes, id))
    {
      WriteSources(h, added);
      WriteLinks(hashes, id);
    }

    /** The four inserts of a verified contract, without the checks around them. */
    method WriteVerifiedContract(h: Hasher, v: VerifiedContract) returns (id: nat)
      modifies this`code, this`compiled, this`sources, this`links, this`verified
      ensures (Snapshot(), id) == WriteVerified(h, old(Snapshot()), v)
    {
      var hashes := PrecalculateSourceHashes(h, v.compiledContract.sources);
      id := WriteCompiled(h, v.compiledContract);
      ghost var db1 := Snapshot();
      WriteSourcesAndLinks(h, v.compiledContract.sources, hashes, id);
      ghost var db2 := Snapshot();
      var row := VerifiedRowOf(v.contractDeploymentId, id, v.matches);
      WriteVerifiedRow(row);
      WriteVerifiedFrom(h, old(Snapshot()), v, db1, db2, id, row);
    }

    method InsertVerifiedContract(h: Hasher, v: VerifiedContract) returns (r: Result<(), Error>)
      modifies this
      ensures (Snapshot(), r) == InsertVerified(h, old(Snapshot()), v)
    {
      var begin := Snapshot();
      var better := ShouldStoreTheMatch(v.contractDeploymentId, v.matches);
      if !better {
        return Err(NotBetterThanExisting);
      }
      var _ := WriteVerifiedContract(h, v);
      if v.contractDeploymentId >= |deployments| {
        Rollback(begin);
        return Err(ForeignKeyViolation);
      }
      r := Ok(());
    }

    method FindContractDeployment(h: Hasher, q: RetrieveContractDeployment)
      returns (r: Result<Option<ContractDeployment>, Error>)
      ensures r == FindDeployment(h, Snapshot(), q)
    {
      var hash := RetrieveTransactionHash(h, q);
      if hash.Err? {
        return Err(hash.error);
      }
      var id := FindKey(deployments, DeploymentKey, (q.chainId, q.address, hash.value));
      if id.None? {
        return Ok(None);
      }
      var row := deployments[id.value];
      if row.contractId >= |contracts| {
        return Err(ContractNotFound);
      }
      var contract := contracts[row.contractId];
      if contract.creationCodeHash !in code || contract.runtimeCodeHash !in code {
        return Err(CodeNotFound);
      }
      var creationCode := code[contract.creationCodeHash].code;
      var runtimeCode := code[contract.runtimeCodeHash].code;
      if runtimeCode.None? {
        return Err(NoRuntimeCode);
      }
      r := Ok(Some(ContractDeployment(id.value, q.chainId, q.address, runtimeCode.value, creationCode, row)));
    }

    /** Follows the links of a compilation to their contents. */
    method RetrieveSourcesByCompilationId(compilationId: nat) returns (r: Result<map<string, Bytes>, Error>)
      ensures r == RetrieveSources(Snapshot(), compilationId)
    {
      var held := LinksOf(links, compilationId);
      var rest := held.Keys;
      var found: map<string, Bytes> := map[];
      while rest != {}
        invariant rest <= held.Keys && found.Keys == held.Keys - rest
        invariant forall path :: path in found ==> held[path] in sources && found[path] == sources[held[path]].content
      {
        var path :| path in rest;
        if held[path] !in sources {
          return Err(SourceNotFound);
        }
        found := found[path := sources[held[path]].content];
        rest := rest - {path};
      }
      assert Resolve(held, sources) && found == LinkedSources(held, sources);
      r := Ok(found);
    }

    method FindVerifiedContracts(chainId: int, address: Bytes) returns (r: Result<seq<VerifiedContract>, Error>)
      ensures r == FindVerified(Snapshot(), chainId, address)
      ensures (forall i :: 0 <= i < |deployments|
                           ==> deployments[i].chainId != chainId || deployments[i].address != address)
              ==> r == Ok([])
    {
      var db := Snapshot();
      var latest := Latest(deployments, chainId, address);
      if latest.None? {
        return Ok([]);
      }
      var found: seq<VerifiedContract> := [];
      var i := 0;
      while i < |verified|
        invariant 0 <= i <= |verified|
        invariant CollectVerified(db, latest.value, i) == Ok(found)
      {
        if verified[i].deploymentId == latest.value {
          var loaded := LoadVerified(db, verified[i]);
          if loaded.Err? {
            CollectFails(db, latest.value, i + 1, loaded.error, |verified|);
            return Err(loaded.error);
          }
          found := found + [loaded.value];
        }
        i := i + 1;
      }
      r := Ok(found);
    }
  }

  /** The writes one after the other are the write of a verified contract. */
  lemma WriteVerifiedFrom(h: Hasher, db: Db, v: VerifiedContract, db1: Db, db2: Db, id: nat, row: VerifiedRow)
    requires (db1, id) == InsertCompiled(h, db, v.compiledContract)
    requires db2 == db1.(sources := InsertSources(h, db1.sources, v.compiledContract.sources.Values),
                         links := InsertLinks(db1.links, SourceHashes(h, v.compiledContract.sources), id))
    requires row == VerifiedRowOf(v.contractDeploymentId, id, v.matches)
    ensures (db2.(verified := InsertSerial(db2.verified, VerifiedKey, row).0), id) == WriteVerified(h, db, v)
  {
  }

  method PrecalculateSourceHashes(h: Hasher, sources: map<string, Bytes>) returns (hashes: map<string, Bytes>)
    ensures hashes == SourceHashes(h, sources)
  {
    hashes := map[];
    var rest := sources.Keys;
    while rest != {}
      invariant rest <= sources.Keys && hashes.Keys == sources.Keys - rest
      invariant forall path :: path in hashes ==> hashes[path] == h.sha256(sources[path])
    {
      var path :| path in rest;
      hashes := hashes[path := h.sha256(sources[path])];
      rest := rest - {path};
    }
  }

  lemma OneMoreSourceRow(h: Hasher, contents: set<Bytes>, content: Bytes)
    ensures SourceRows(h, contents + {content})
            == SourceRows(h, contents)[h.sha256(content) := SourceRow(h.keccak256(content), content)]
    ensures h.sha256(content) in SourceRows(h, contents)
            ==> SourceRows(h, contents)[h.sha256(content)] == SourceRow(h.keccak256(content), content)
  {
    Injective(h);
  }

  lemma InsertOneMore(h: Hasher, t: map<Bytes, SourceRow>, contents: set<Bytes>, content: Bytes)
    ensures InsertSources(h, t, contents + {content})
            == InsertKeyed(InsertSources(h, t, contents), h.sha256(content),
                           SourceRow(h.keccak256(content), content))
  {
    OneMoreSourceRow(h, contents, content);
  }

  /** A failed row fails the whole collection. */
  lemma {:induction false} CollectFails(db: Db, deploymentId: nat, i: nat, e: Error, n: nat)
    requires i <= n <= |db.verified| && CollectVerified(db, deploymentId, i) == Err(e)
    ensures CollectVerified(db, deploymentId, n) == Err(e)
    decreases n
  {
    if i < n {
      CollectFails(db, deploymentId, i, e, n - 1);
    }
  }
}

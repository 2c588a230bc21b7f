/** What the store promises its callers over every serial run. */
module AllianceTheorems {
  import opened Prelude
  import opened AllianceTypes
  import opened AllianceTables
  import opened AllianceStore
  import opened AllianceInvariant

  // ---- the finds never fail ----

  lemma LoadDeploymentOk(h: Hasher, db: Db, id: nat)
    requires Inv(h, db) && id < |db.deployments|
    ensures LoadDeployment(db, id).Ok?
  {
    var contract := db.contracts[db.deployments[id].contractId];
    assert contract.runtimeCodeHash in db.code;
  }

  lemma LoadVerifiedOk(h: Hasher, db: Db, i: nat)
    requires Inv(h, db) && i < |db.verified|
    ensures LoadVerified(db, db.verified[i]).Ok?
  {
    var verified := db.verified[i];
    var row := db.compiled[verified.compilationId];
    assert CompiledRowOk(row, db.code);
    assert MatchesOf(verified).Ok?;
  }

  lemma {:induction false} CollectVerifiedOk(h: Hasher, db: Db, deploymentId: nat, n: nat)
    requires Inv(h, db) && n <= |db.verified|
    ensures CollectVerified(db, deploymentId, n).Ok?
  {
    if n != 0 {
      CollectVerifiedOk(h, db, deploymentId, n - 1);
      LoadVerifiedOk(h, db, n - 1);
    }
  }

  lemma CollectVerifiedAny(h: Hasher, db: Db)
    requires Inv(h, db)
    ensures forall id :: CollectVerified(db, id, |db.verified|).Ok?
  {
    forall id: nat ensures CollectVerified(db, id, |db.verified|).Ok? {
      CollectVerifiedOk(h, db, id, |db.verified|);
    }
  }

  // ---- what the lookups answer ----

  /** `d` is row `i` with the contents its contract points at; a contract without creation code has the empty hash. */
  ghost predicate Shows(h: Hasher, db: Db, i: nat, d: ContractDeployment) {
    && i < |db.deployments| && d.id == i && d.model == db.deployments[i]
    && d.chainId == db.deployments[i].chainId && d.address == db.deployments[i].address
    && db.deployments[i].contractId < |db.contracts|
    && var contract := db.contracts[db.deployments[i].contractId];
       && contract.runtimeCodeHash == h.sha256(d.runtimeCode)
       && contract.creationCodeHash == match d.creationCode case None => [] case Some(code) => h.sha256(code)
  }

  lemma LoadShows(h: Hasher, db: Db, i: nat)
    requires Inv(h, db) && i < |db.deployments|
    ensures LoadDeployment(db, i).Ok? && Shows(h, db, i, LoadDeployment(db, i).value)
  {
    LoadDeploymentOk(h, db, i);
    var contract := db.contracts[db.deployments[i].contractId];
    assert contract.runtimeCodeHash in db.code && contract.creationCodeHash in db.code;
  }

  ghost predicate HasKey(row: DeploymentRow, chainId: int, address: Bytes, transactionHash: Bytes) {
    row.chainId == chainId && row.address == address && row.transactionHash == transactionHash
  }

  /** A query asks for the transaction hash it has; without one, for the hash of its runtime code. The answer is the
      one row with that chain, address and hash, shown with its codes, or nothing if there is none. */
  lemma FindDeploymentIs(h: Hasher, db: Db, q: RetrieveContractDeployment, hash: Bytes)
    requires Inv(h, db)
    requires q.transactionHash == Some(hash)
             || (q.transactionHash.None? && q.runtimeCode.Some? && hash == h.keccak256(q.runtimeCode.value))
    ensures var found := FindDeployment(h, db, q);
            && found.Ok?
            && (found.value.None?
                <==> forall i :: 0 <= i < |db.deployments| ==> !HasKey(db.deployments[i], q.chainId, q.address, hash))
            && (forall i: nat :: i < |db.deployments| && HasKey(db.deployments[i], q.chainId, q.address, hash)
                                 ==> found.value.Some? && Shows(h, db, i, found.value.value))
  {
    forall i: nat | i < |db.deployments| && HasKey(db.deployments[i], q.chainId, q.address, hash)
      ensures FindKey(db.deployments, DeploymentKey, (q.chainId, q.address, hash)) == Some(i)
      ensures LoadDeployment(db, i).Ok? && Shows(h, db, i, LoadDeployment(db, i).value)
    {
      FindKeyUnique(db.deployments, DeploymentKey, i);
      LoadShows(h, db, i);
    }
    var id := FindKey(db.deployments, DeploymentKey, (q.chainId, q.address, hash));
    if id.Some? {
      assert HasKey(db.deployments[id.value], q.chainId, q.address, hash);
    }
  }

  ghost predicate Rising(rows: seq<nat>) {
    forall a, b :: 0 <= a < b < |rows| ==> rows[a] < rows[b]
  }

  /** The numbers of exactly the rows of a deployment, in order. */
  ghost predicate RowsOf(t: seq<VerifiedRow>, deploymentId: nat, rows: seq<nat>) {
    && Rising(rows)
    && (forall a :: 0 <= a < |rows| ==> rows[a] < |t| && t[rows[a]].deploymentId == deploymentId)
    && (forall i: nat :: i < |t| && t[i].deploymentId == deploymentId ==> i in rows)
  }

  type Loader = nat -> Result<VerifiedContract, Error>

  /** What each verified row is loaded as. */
  ghost function LoaderOf(db: Db): Loader {
    (i: nat) => if i < |db.verified| then LoadVerified(db, db.verified[i]) else Err(CompiledContractNotFound)
  }

  ghost predicate Loads(load: Loader, rows: seq<nat>, found: seq<VerifiedContract>) {
    |found| == |rows| && forall a :: 0 <= a < |rows| ==> load(rows[a]) == Ok(found[a])
  }

  /** The rows before one are loaded, and that one fails with `e`. */
  ghost predicate FailsAt(load: Loader, rows: seq<nat>, a: nat, e: Error) {
    a < |rows| && load(rows[a]) == Err(e) && forall b :: 0 <= b < a ==> load(rows[b]).Ok?
  }

  /** All rows are loaded, in order, or the first failure is reported. */
  ghost predicate Collects(load: Loader, rows: seq<nat>, r: Result<seq<VerifiedContract>, Error>) {
    match r
    case Ok(found) => Loads(load, rows, found)
    case Err(e) => exists a :: FailsAt(load, rows, a, e)
  }

  function AndThen(r: Result<seq<VerifiedContract>, Error>, one: Result<VerifiedContract, Error>)
    : Result<seq<VerifiedContract>, Error>
  {
    if r.Err? then r else if one.Err? then Err(one.error) else Ok(r.value + [one.value])
  }

  lemma CollectsMore(load: Loader, rows: seq<nat>, r: Result<seq<VerifiedContract>, Error>, n: nat)
    requires Collects(load, rows, r)
    ensures Collects(load, rows + [n], AndThen(r, load(n)))
  {
    var more := rows + [n];
    assert more[|rows|] == n;
    if r.Err? {
      var a :| FailsAt(load, rows, a, r.error);
      assert FailsAt(load, more, a, r.error);
    } else if load(n).Err? {
      assert FailsAt(load, more, |rows|, load(n).error);
    }
  }

  /** The collection over what is loaded, whatever that is. */
  ghost function CollectWith(load: Loader, t: seq<VerifiedRow>, deploymentId: nat, n: nat)
    : Result<seq<VerifiedContract>, Error>
    requires n <= |t|
  {
    if n == 0 then Ok([])
    else if t[n - 1].deploymentId != deploymentId then CollectWith(load, t, deploymentId, n - 1)
    else AndThen(CollectWith(load, t, deploymentId, n - 1), load(n - 1))
  }

  ghost function RowsBefore(t: seq<VerifiedRow>, deploymentId: nat, n: nat): seq<nat>
    requires n <= |t|
  {
    if n == 0 then []
    else RowsBefore(t, deploymentId, n - 1) + if t[n - 1].deploymentId == deploymentId then [n - 1] else []
  }

  lemma {:induction false} RowsBelow(t: seq<VerifiedRow>, deploymentId: nat, n: nat)
    requires n <= |t|
    ensures forall a :: 0 <= a < |RowsBefore(t, deploymentId, n)|
                        ==> RowsBefore(t, deploymentId, n)[a] < n
                            && t[RowsBefore(t, deploymentId, n)[a]].deploymentId == deploymentId
  {
    if n > 0 {
      RowsBelow(t, deploymentId, n - 1);
    }
  }

  lemma {:induction false} RowsRise(t: seq<VerifiedRow>, deploymentId: nat, n: nat)
    requires n <= |t|
    ensures Rising(RowsBefore(t, deploymentId, n))
  {
    if n > 0 {
      RowsRise(t, deploymentId, n - 1);
      RowsBelow(t, deploymentId, n - 1);
    }
  }

  lemma {:induction false} RowsAll(t: seq<VerifiedRow>, deploymentId: nat, n: nat, i: nat)
    requires i < n <= |t| && t[i].deploymentId == deploymentId
    ensures i in RowsBefore(t, deploymentId, n)
  {
    if i < n - 1 {
      RowsAll(t, deploymentId, n - 1, i);
    }
  }

  lemma RowsBeforeOk(t: seq<VerifiedRow>, deploymentId: nat)
    ensures RowsOf(t, deploymentId, RowsBefore(t, deploymentId, |t|))
  {
    RowsBelow(t, deploymentId, |t|);
    RowsRise(t, deploymentId, |t|);
    forall i: nat | i < |t| && t[i].deploymentId == deploymentId ensures i in RowsBefore(t, deploymentId, |t|) {
      RowsAll(t, deploymentId, |t|, i);
    }
  }

  lemma {:induction false} CollectWithIs(load: Loader, t: seq<VerifiedRow>, deploymentId: nat, n: nat)
    requires n <= |t|
    ensures Collects(load, RowsBefore(t, deploymentId, n), CollectWith(load, t, deploymentId, n))
  {
    if n > 0 {
      var before := RowsBefore(t, deploymentId, n - 1);
      CollectWithIs(load, t, deploymentId, n - 1);
      CollectsMore(load, before, CollectWith(load, t, deploymentId, n - 1), n - 1);
      assert before + [] == before;
    }
  }

  lemma {:induction false} CollectIs(db: Db, deploymentId: nat, n: nat)
    requires n <= |db.verified|
    ensures CollectVerified(db, deploymentId, n) == CollectWith(LoaderOf(db), db.verified, deploymentId, n)
  {
    if n > 0 {
      CollectIs(db, deploymentId, n - 1);
      var row := db.verified[n - 1];
      assert LoaderOf(db)(n - 1) == LoadVerified(db, row);
    }
  }

  lemma NothingAtAddress(db: Db, chainId: int, address: Bytes)
    requires forall i :: 0 <= i < |db.deployments|
                         ==> db.deployments[i].chainId != chainId || db.deployments[i].address != address
    ensures FindVerified(db, chainId, address) == Ok([])
  {
  }

  /** An address without deployment has no verified contracts. Otherwise the answer consists, in order and once each, of
      the contracts of exactly the rows of one deployment: among those of the address it has the greatest block
      number, then the greatest update time, then the greatest number. The first row that fails to load ends it. */
  lemma FindVerifiedIs(db: Db, chainId: int, address: Bytes) returns (latest: nat, rows: seq<nat>)
    requires exists i :: 0 <= i < |db.deployments| && db.deployments[i].chainId == chainId
                         && db.deployments[i].address == address
    ensures var t := db.deployments;
            && latest < |t| && t[latest].chainId == chainId && t[latest].address == address
            && forall i :: 0 <= i < |t| && t[i].chainId == chainId && t[i].address == address
                           ==> || t[i].blockNumber < t[latest].blockNumber
                               || (t[i].blockNumber == t[latest].blockNumber
                                   && (t[i].updatedAt < t[latest].updatedAt
                                       || (t[i].updatedAt == t[latest].updatedAt && i <= latest)))
    ensures RowsOf(db.verified, latest, rows)
    ensures Collects(LoaderOf(db), rows, FindVerified(db, chainId, address))
  {
    latest := Latest(db.deployments, chainId, address).value;
    rows := RowsBefore(db.verified, latest, |db.verified|);
    RowsBeforeOk(db.verified, latest);
    CollectWithIs(LoaderOf(db), db.verified, latest, |db.verified|);
    CollectIs(db, latest, |db.verified|);
  }

  lemma FindVerifiedOk(h: Hasher, db: Db, chainId: int, address: Bytes)
    requires Inv(h, db)
    ensures FindVerified(db, chainId, address).Ok?
  {
    CollectVerifiedAny(h, db);
  }

  lemma FindDeploymentOk(h: Hasher, db: Db, q: RetrieveContractDeployment)
    requires Inv(h, db)
    ensures FindDeployment(h, db, q).Ok? <==> q.transactionHash.Some? || q.runtimeCode.Some?
  {
    if q.transactionHash.Some? {
      FindDeploymentIs(h, db, q, q.transactionHash.value);
    } else if q.runtimeCode.Some? {
      FindDeploymentIs(h, db, q, h.keccak256(q.runtimeCode.value));
    }
  }

  /** After any serial run, no lookup meets a missing row, a missing code, a missing match column
      or the branch declared unreachable. The one failing query names no deployment at all. */
  lemma FindsNeverFail(h: Hasher, ops: seq<Op>, q: RetrieveContractDeployment, chainId: int, address: Bytes)
    ensures FindVerified(Run(h, EMPTY, ops), chainId, address).Ok?
    ensures FindDeployment(h, Run(h, EMPTY, ops), q).Ok? <==> q.transactionHash.Some? || q.runtimeCode.Some?
  {
    EmptyOk(h);
    RunStep(h, EMPTY, ops);
    FindVerifiedOk(h, Run(h, EMPTY, ops), chainId, address);
    FindDeploymentOk(h, Run(h, EMPTY, ops), q);
  }

  // ---- the first deployment under a key stays ----

  /** The query that retrieves what `d` inserted. */
  function QueryFor(d: InsertContractDeployment): RetrieveContractDeployment {
    match d
    case Genesis(chainId, address, runtimeCode) => RetrieveGenesis(chainId, address, runtimeCode)
    case Regular(chainId, address, transactionHash, _, _, _, _, _) =>
      RetrieveRegular(chainId, address, transactionHash)
  }

  lemma LoadDeploymentExtends(h: Hasher, db: Db, db': Db, id: nat)
    requires Inv(h, db) && Extends(db, db') && id < |db.deployments|
    ensures LoadDeployment(db', id) == LoadDeployment(db, id)
  {
    LoadDeploymentOk(h, db, id);
  }

  /** A found deployment is found, unchanged, after any further run. */
  lemma FoundStays(h: Hasher, db: Db, q: RetrieveContractDeployment, ops: seq<Op>)
    requires Inv(h, db) && FindDeployment(h, db, q).Ok? && FindDeployment(h, db, q).value.Some?
    ensures FindDeployment(h, Run(h, db, ops), q) == FindDeployment(h, db, q)
  {
    RunStep(h, db, ops);
    var db' := Run(h, db, ops);
    var hash := RetrieveTransactionHash(h, q).value;
    var id := FindKey(db.deployments, DeploymentKey, (q.chainId, q.address, hash)).value;
    assert db'.deployments[id] == db.deployments[id];
    FindKeyUnique(db'.deployments, DeploymentKey, id);
    LoadDeploymentExtends(h, db, db', id);
  }

  lemma InsertedIsLoaded(h: Hasher, db: Db, d: InsertContractDeployment, now: int)
    requires Inv(h, db) && FitsDecimal(d)
    requires forall i :: 0 <= i < |db.deployments| ==>
               DeploymentKey(db.deployments[i]) != DeploymentKey(DeploymentRowOf(ParseDeployment(h, d), 0, 0))
    ensures var (db', r) := InsertDeployment(h, db, d, now);
            r.Ok? && r.value.id == |db.deployments| < |db'.deployments|
            && LoadDeployment(db', r.value.id) == r
  {
    var data := ParseDeployment(h, d);
    InsertContractOk(h, db, data.contractCode);
    var (db1, contractId) := InsertContract(h, db, data.contractCode);
    match d {
      case Genesis(_, _, runtimeCode) =>
        InsertCodeOk(h, db.code, runtimeCode);
      case Regular(_, _, _, _, _, _, creationCode, runtimeCode) =>
        InsertCodeOk(h, db.code, creationCode);
        InsertCodeOk(h, InsertCode(h, db.code, creationCode), runtimeCode);
    }
  }

  lemma QueryKey(h: Hasher, d: InsertContractDeployment, contractId: nat, now: int)
    ensures RetrieveTransactionHash(h, QueryFor(d)) == Ok(ParseDeployment(h, d).transactionHash)
    ensures DeploymentKey(DeploymentRowOf(ParseDeployment(h, d), contractId, now))
            == (QueryFor(d).chainId, QueryFor(d).address, ParseDeployment(h, d).transactionHash)
  {
  }

  lemma FreshKey(h: Hasher, db: Db, d: InsertContractDeployment)
    requires FindDeployment(h, db, QueryFor(d)) == Ok(None)
    ensures forall i :: 0 <= i < |db.deployments| ==>
              DeploymentKey(db.deployments[i]) != DeploymentKey(DeploymentRowOf(ParseDeployment(h, d), 0, 0))
  {
    QueryKey(h, d, 0, 0);
  }

  lemma FindInserted(h: Hasher, db: Db, d: InsertContractDeployment, now: int)
    requires Inv(h, db) && FitsDecimal(d) && FindDeployment(h, db, QueryFor(d)) == Ok(None)
    ensures var (db', r) := InsertDeployment(h, db, d, now);
            r.Ok? && FindDeployment(h, db', QueryFor(d)) == Ok(Some(r.value))
  {
    FreshKey(h, db, d);
    InsertedIsLoaded(h, db, d, now);
    InsertDeploymentStep(h, db, d, now);
    var (db', r) := InsertDeployment(h, db, d, now);
    var data := ParseDeployment(h, d);
    QueryKey(h, d, InsertContract(h, db, data.contractCode).1, now);
    FindKeyUnique(db'.deployments, DeploymentKey, r.value.id);
  }

  /** The row says of a deployment what was submitted; a genesis contract stands before the first block, under the
      hash of its runtime code. */
  predicate Describes(h: Hasher, row: DeploymentRow, d: InsertContractDeployment) {
    && row.chainId == d.chainId && row.address == d.address
    && match d
       case Genesis(_, _, runtimeCode) =>
         row.transactionHash == h.keccak256(runtimeCode) && row.blockNumber == -1 && row.transactionIndex == -1
         && row.deployer == []
       case Regular(_, _, transactionHash, block, index, deployer, _, _) =>
         row.transactionHash == transactionHash && row.blockNumber == block && row.transactionIndex == index
         && row.deployer == deployer
  }

  /** Once a deployment key is first inserted, its find returns that first id and those first codes for ever,
      whatever is inserted later, including the same key with other codes. */
  lemma FirstDeploymentStays(h: Hasher, before: seq<Op>, d: InsertContractDeployment, now: int, after: seq<Op>)
    requires FitsDecimal(d) && FindDeployment(h, Run(h, EMPTY, before), QueryFor(d)) == Ok(None)
    ensures var db := Run(h, EMPTY, before);
            var found := FindDeployment(h, Run(h, EMPTY, before + [Deploy(d, now)] + after), QueryFor(d));
            && found.Ok? && found.value.Some?
            && found.value.value.id == |db.deployments|
            && found.value.value.chainId == d.chainId && found.value.value.address == d.address
            && found.value.value.runtimeCode == d.runtimeCode
            && found.value.value.creationCode == d.CreationCode()
            && Describes(h, found.value.value.model, d) && found.value.value.model.updatedAt == now
  {
    EmptyOk(h);
    RunStep(h, EMPTY, before);
    var db := Run(h, EMPTY, before);
    FindInserted(h, db, d, now);
    FreshKey(h, db, d);
    InsertedIsLoaded(h, db, d, now);
    InsertDeploymentStep(h, db, d, now);
    var db' := InsertDeployment(h, db, d, now).0;
    assert (before + [Deploy(d, now)])[..|before|] == before;
    assert Run(h, EMPTY, before + [Deploy(d, now)]) == db';
    RunConcat(h, EMPTY, before + [Deploy(d, now)], after);
    FoundStays(h, db', QueryFor(d), after);
  }

  /** A deployment is stored precisely when its numbers fit 96 bits, which those of a genesis contract always do;
      otherwise nothing is written. */
  lemma DeploymentStoredIff(h: Hasher, db: Db, d: InsertContractDeployment, now: int)
    ensures var (db', r) := InsertDeployment(h, db, d, now);
            && (r.Ok? <==> d.Genesis? || (d.blockNumber < 79_228_162_514_264_337_593_543_950_336
                                          && d.transactionIndex < 79_228_162_514_264_337_593_543_950_336))
            && (r.Err? ==> r == Err(DecimalOverflow) && db' == db)
  {
  }

  // ---- what the insert reports against what the store holds ----

  /** The value an insert returns is what a find would return exactly when the key was new, or already held
      the submitted codes: on a conflict the submitted codes are echoed beside the existing row. */
  lemma InsertEchoesFind(h: Hasher, db: Db, d: InsertContractDeployment, now: int)
    requires Inv(h, db) && FitsDecimal(d)
    ensures var (db', r) := InsertDeployment(h, db, d, now);
            var held := FindDeployment(h, db, QueryFor(d));
            r.Ok? && held.Ok?
            && (FindDeployment(h, db', QueryFor(d)) == Ok(Some(r.value))
                <==> held.value.None?
                     || (held.value.value.runtimeCode == d.runtimeCode
                         && held.value.value.creationCode == d.CreationCode()))
  {
    var data := ParseDeployment(h, d);
    var key := (d.chainId, d.address, data.transactionHash);
    QueryKey(h, d, 0, 0);
    forall id: nat | id < |db.deployments| ensures LoadDeployment(db, id).Ok? {
      LoadDeploymentOk(h, db, id);
    }
    if FindKey(db.deployments, DeploymentKey, key).None? {
      FindInserted(h, db, d, now);
    } else {
      assert Run(h, db, []) == db;
      assert [Deploy(d, now)][..0] == [];
      assert Run(h, db, [Deploy(d, now)]) == InsertDeployment(h, db, d, now).0;
      FoundStays(h, db, QueryFor(d), [Deploy(d, now)]);
      InsertContractOk(h, db, data.contractCode);
      InsertDeploymentStep(h, db, d, now);
      QueryKey(h, d, InsertContract(h, db, data.contractCode).1, now);
    }
  }

  /** Two deployments under one key with different runtime code: the second insert reports the code it
      did not store. */
  lemma InsertEchoDiffers(h: Hasher, db: Db, first: InsertContractDeployment, second: InsertContractDeployment,
                          now: int, later: int)
    requires Inv(h, db) && FitsDecimal(first) && FitsDecimal(second)
    requires FindDeployment(h, db, QueryFor(first)) == Ok(None) && QueryFor(second) == QueryFor(first)
    requires first.runtimeCode != second.runtimeCode
    ensures var (db', r) := InsertDeployment(h, InsertDeployment(h, db, first, now).0, second, later);
            r.Ok? && FindDeployment(h, db', QueryFor(second)) != Ok(Some(r.value))
  {
    FindInserted(h, db, first, now);
    InsertDeploymentStep(h, db, first, now);
    InsertEchoesFind(h, InsertDeployment(h, db, first, now).0, second, later);
  }

  /** The smallest such pair, on the empty database. */
  lemma InsertEchoExample(h: Hasher)
    ensures var (db', r) := InsertDeployment(h, InsertDeployment(h, EMPTY, FIRST_EXAMPLE, 0).0, SECOND_EXAMPLE, 1);
            r.Ok? && FindDeployment(h, db', QueryFor(SECOND_EXAMPLE)) != Ok(Some(r.value))
  {
    EmptyOk(h);
    InsertEchoDiffers(h, EMPTY, FIRST_EXAMPLE, SECOND_EXAMPLE, 0, 1);
  }

  const FIRST_EXAMPLE := Regular(1, [7], [9], 5, 0, [], [1], [2])

  const SECOND_EXAMPLE := Regular(1, [7], [9], 5, 0, [], [1], [3])

  // ---- the gate ----

  /** Over every run, a row without a metadata match matches on a side on which a row stored before it for the same
      deployment does not: it is never componentwise at most that row, and its pair of flags occurs once. */
  lemma {:induction false} GateOverRuns(h: Hasher, ops: seq<Op>)
    ensures var t := Run(h, EMPTY, ops).verified;
            forall i, j :: 0 <= i < j < |t| && t[i].deploymentId == t[j].deploymentId
                           && t[j].creation.metadataMatch != Some(true) && t[j].runtime.metadataMatch != Some(true)
                           ==> || (t[j].creation.doesMatch && !t[i].creation.doesMatch)
                               || (t[j].runtime.doesMatch && !t[i].runtime.doesMatch)
  {
    EmptyOk(h);
    RunStep(h, EMPTY, ops);
  }

  /** The rows of a deployment that have no metadata match on either side. */
  ghost function PlainRows(t: seq<VerifiedRow>, deploymentId: nat): set<nat> {
    set i: nat | i < |t| && t[i].deploymentId == deploymentId
                 && t[i].creation.metadataMatch != Some(true) && t[i].runtime.metadataMatch != Some(true)
  }

  const PLAIN_PAIRS: set<(bool, bool)> := {(true, false), (false, true), (true, true)}

  /** An injection into a set bounds the cardinality. */
  lemma {:induction false} InjectionBound<A, B>(a: set<A>, f: A -> B, b: set<B>)
    requires forall x :: x in a ==> f(x) in b
    requires forall x, y :: x in a && y in a && f(x) == f(y) ==> x == y
    ensures |a| <= |b|
  {
    if a != {} {
      var x :| x in a;
      InjectionBound(a - {x}, f, b - {f(x)});
    }
  }

  /** A deployment never holds more than three rows without a metadata match. */
  lemma AtMostThreePlainRows(h: Hasher, ops: seq<Op>, deploymentId: nat)
    ensures var t := Run(h, EMPTY, ops).verified;
            |set i: nat | i < |t| && t[i].deploymentId == deploymentId
                          && t[i].creation.metadataMatch != Some(true) && t[i].runtime.metadataMatch != Some(true)| <= 3
  {
    EmptyOk(h);
    RunStep(h, EMPTY, ops);
    var t := Run(h, EMPTY, ops).verified;
    var rows := PlainRows(t, deploymentId);
    var pair := (i: nat) => if i < |t| then (t[i].creation.doesMatch, t[i].runtime.doesMatch) else (false, false);
    forall i | i in rows ensures pair(i) in PLAIN_PAIRS {
      assert VerifiedRowOk(t[i]);
    }
    forall i, j | i in rows && j in rows && pair(i) == pair(j) ensures i == j {
      GateOverRuns(h, ops);
    }
    InjectionBound(rows, pair, PLAIN_PAIRS);
  }

  /** A contract is accepted precisely when it passes the gate and its deployment exists; otherwise nothing is
      written. The gate comes first. */
  lemma AcceptedIff(h: Hasher, db: Db, v: VerifiedContract)
    ensures var (db', r) := InsertVerified(h, db, v);
            && (r == Ok(()) <==> Passes(db.verified, v.contractDeploymentId, v.matches)
                                 && v.contractDeploymentId < |db.deployments|)
            && (r == Err(NotBetterThanExisting) <==> !Passes(db.verified, v.contractDeploymentId, v.matches))
            && (r.Err? ==> db' == db && (r == Err(NotBetterThanExisting) || r == Err(ForeignKeyViolation)))
  {
    PassesIff(db.verified, v.contractDeploymentId, v.matches);
  }

  /** The id under which a compilation is stored, or will be. */
  function CompilationId(h: Hasher, db: Db, c: CompiledContract): nat {
    match FindKey(db.compiled, CompiledKey, CompiledKey(CompiledRowOf(h, c)))
    case Some(id) => id
    case None => |db.compiled|
  }

  /** The compilation is in the store, and has a row for the deployment. */
  predicate PairKnown(h: Hasher, db: Db, v: VerifiedContract) {
    var id := FindKey(db.compiled, CompiledKey, CompiledKey(CompiledRowOf(h, v.compiledContract)));
    id.Some? && FindKey(db.verified, VerifiedKey, (id.value, v.contractDeploymentId)).Some?
  }

  /** The row is one of the deployment, and its compilation has the compiler, the language and the codes of `c`. */
  ghost predicate RowFor(h: Hasher, db: Db, row: VerifiedRow, deploymentId: nat, c: CompiledContract) {
    && row.deploymentId == deploymentId && row.compilationId < |db.compiled|
    && var compiled := db.compiled[row.compilationId];
       && compiled.compiler == CompilerName(c.compiler) && compiled.language == LanguageName(c.language)
       && compiled.creationCodeHash == h.sha256(c.creationCode) && compiled.runtimeCodeHash == h.sha256(c.runtimeCode)
  }

  /** A pair is known precisely when one of the rows is for it. */
  lemma PairKnownColumns(h: Hasher, db: Db, v: VerifiedContract)
    requires VerifiedOk(db.verified, |db.compiled|, |db.deployments|) && UniqueKeys(db.compiled, CompiledKey)
    ensures PairKnown(h, db, v)
            <==> exists i :: 0 <= i < |db.verified|
                             && RowFor(h, db, db.verified[i], v.contractDeploymentId, v.compiledContract)
  {
    if i :| 0 <= i < |db.verified| && RowFor(h, db, db.verified[i], v.contractDeploymentId, v.compiledContract) {
      FindKeyUnique(db.compiled, CompiledKey, db.verified[i].compilationId);
      assert VerifiedKey(db.verified[i]) == (db.verified[i].compilationId, v.contractDeploymentId);
    } else if PairKnown(h, db, v) {
      var id := FindKey(db.compiled, CompiledKey, CompiledKey(CompiledRowOf(h, v.compiledContract))).value;
      var i := FindKey(db.verified, VerifiedKey, (id, v.contractDeploymentId)).value;
      assert RowFor(h, db, db.verified[i], v.contractDeploymentId, v.compiledContract);
    }
  }

  lemma PairKnownIff(h: Hasher, db: Db, v: VerifiedContract)
    requires VerifiedOk(db.verified, |db.compiled|, |db.deployments|)
    ensures PairKnown(h, db, v)
            <==> exists i :: 0 <= i < |db.verified|
                             && VerifiedKey(db.verified[i])
                                == (CompilationId(h, db, v.compiledContract), v.contractDeploymentId)
  {
  }

  /** An accepted match adds one row precisely when its pair of compilation and deployment has none in the tables
      before the call; otherwise the row there was stays. */
  lemma AcceptedRow(h: Hasher, db: Db, v: VerifiedContract)
    requires Inv(h, db) && VerifyOutcome(db, v).Ok?
    ensures InsertVerified(h, db, v).1 == Ok(())
    ensures InsertVerified(h, db, v).0.verified
            == if PairKnown(h, db, v) then db.verified
               else db.verified + [VerifiedRowOf(v.contractDeploymentId, CompilationId(h, db, v.compiledContract),
                                                 v.matches)]
  {
    WriteVerifiedShape(h, db, v);
    PairKnownIff(h, db, v);
  }

  lemma RunMore(h: Hasher, ops: seq<Op>, op: Op)
    ensures Run(h, EMPTY, ops + [op]) == Apply(h, Run(h, EMPTY, ops), op)
  {
    assert (ops + [op])[..|ops|] == ops;
  }

  /** After an accepted contract its pair is known, whatever the matches of a later one. */
  lemma PairKnownAfter(h: Hasher, db: Db, v: VerifiedContract, m: Matches)
    requires Inv(h, db) && VerifyOutcome(db, v).Ok?
    ensures PairKnown(h, InsertVerified(h, db, v).0, v.(matches := m))
  {
    WriteVerifiedShape(h, db, v);
    InsertVerifiedStep(h, db, v);
    var (db', id) := WriteVerified(h, db, v);
    FindKeyUnique(db'.compiled, CompiledKey, id);
  }

  /** A match with metadata for a pair that has a row, of whatever quality, is accepted and dropped. */
  lemma BetterMatchDropped(h: Hasher, db: Db, v: VerifiedContract, m: Matches)
    requires Inv(h, db) && VerifyOutcome(db, v).Ok?
    requires (!m.OnlyRuntime? && m.creationMatch.metadataMatch) || (!m.OnlyCreation? && m.runtimeMatch.metadataMatch)
    ensures var db' := InsertVerified(h, db, v).0;
            var (after, r) := InsertVerified(h, db', v.(matches := m));
            r == Ok(()) && after.verified == db'.verified
  {
    WriteVerifiedShape(h, db, v);
    InsertVerifiedStep(h, db, v);
    PairKnownAfter(h, db, v, m);
    PassesIff(InsertVerified(h, db, v).0.verified, v.contractDeploymentId, m);
    AcceptedRow(h, InsertVerified(h, db, v).0, v.(matches := m));
  }

  const COMPILED_EXAMPLE := CompiledContract(Solc, "0.8.20", Solidity, "C", "c.sol:C", map["c.sol" := [4]], "{}", "{}",
                                             [1], "{}", [2], "{}")

  const PLAIN_EXAMPLE := VerifiedContract(0, COMPILED_EXAMPLE, OnlyRuntime(Match(false, "[]", "{}")))

  const PERFECT_EXAMPLE := OnlyRuntime(Match(true, "[]", "{}"))

  ghost predicate BetterDropped(h: Hasher, db: Db) {
    var (plain, first) := InsertVerified(h, db, PLAIN_EXAMPLE);
    var (after, second) := InsertVerified(h, plain, PLAIN_EXAMPLE.(matches := PERFECT_EXAMPLE));
    && first == Ok(()) && second == Ok(()) && after.verified == plain.verified
    && plain.verified == [VerifiedRowOf(0, 0, PLAIN_EXAMPLE.matches)]
  }

  lemma DroppedFrom(h: Hasher, db: Db)
    requires Inv(h, db) && |db.deployments| == 1 && db.verified == [] && db.compiled == []
    ensures BetterDropped(h, db)
  {
    AcceptedRow(h, db, PLAIN_EXAMPLE);
    BetterMatchDropped(h, db, PLAIN_EXAMPLE, PERFECT_EXAMPLE);
  }

  /** One deployment, a match without metadata, then one with metadata for the same compilation: the second is better,
      is reported as accepted, and leaves the rows as they were. */
  lemma BetterMatchExample(h: Hasher)
    ensures !PLAIN_EXAMPLE.matches.runtimeMatch.metadataMatch && PERFECT_EXAMPLE.runtimeMatch.metadataMatch
    ensures BetterDropped(h, InsertDeployment(h, EMPTY, FIRST_EXAMPLE, 0).0)
  {
    var db := InsertDeployment(h, EMPTY, FIRST_EXAMPLE, 0).0;
    EmptyOk(h);
    InsertDeploymentStep(h, EMPTY, FIRST_EXAMPLE, 0);
    OneDeployment(h, db);
    DroppedFrom(h, db);
  }

  lemma OneDeployment(h: Hasher, db: Db)
    requires db == InsertDeployment(h, EMPTY, FIRST_EXAMPLE, 0).0
    ensures |db.deployments| == 1 && db.verified == [] && db.compiled == []
  {
  }

  // ---- sources of a compilation ----

  predicate Accepted(db: Db, op: Op) {
    op.Verify? && VerifyOutcome(db, op.contract).Ok?
  }

  /** The merge, in order, of the source maps of all accepted contracts with one compilation key;
      the first content of a path wins. */
  ghost function AcceptedSources(h: Hasher, ops: seq<Op>, key: (string, string, Bytes, Bytes)): map<string, Bytes> {
    if ops == [] then map[]
    else
      var n := |ops| - 1;
      var earlier := AcceptedSources(h, ops[..n], key);
      if Accepted(Run(h, EMPTY, ops[..n]), ops[n])
         && CompiledKey(CompiledRowOf(h, ops[n].contract.compiledContract)) == key
      then ops[n].contract.compiledContract.sources + earlier
      else earlier
  }

  /** Links to new contents are merged into the links there were; the links there were win. */
  lemma LinkedMerge(links: map<string, Bytes>, sources: map<Bytes, SourceRow>, hashes: map<string, Bytes>,
                    sources': map<Bytes, SourceRow>, added: map<string, Bytes>)
    requires Resolve(links, sources) && Submap(sources, sources') && hashes.Keys == added.Keys
    requires forall path :: path in added ==> hashes[path] in sources' && sources'[hashes[path]].content == added[path]
    ensures Resolve(hashes + links, sources')
    ensures LinkedSources(hashes + links, sources') == added + LinkedSources(links, sources)
  {
  }

  type Key = (string, string, Bytes, Bytes)

  /** The sources of every compilation are what `merged` gives for its key. */
  ghost predicate Merged(db: Db, merged: Key -> map<string, Bytes>) {
    && (forall i: nat :: i < |db.compiled| ==> RowMerged(db, merged, i))
    && NothingElse(db.compiled, merged)
  }

  ghost predicate RowMerged(db: Db, merged: Key -> map<string, Bytes>, i: nat)
    requires i < |db.compiled|
  {
    RetrieveSources(db, i) == Ok(merged(CompiledKey(db.compiled[i])))
  }

  /** A key that no compilation has is given nothing. */
  ghost predicate NothingElse(t: seq<CompiledRow>, merged: Key -> map<string, Bytes>) {
    forall key :: (forall i :: 0 <= i < |t| ==> CompiledKey(t[i]) != key) ==> merged(key) == map[]
  }

  ghost predicate AddsTo(merged: Key -> map<string, Bytes>, key: Key, added: map<string, Bytes>,
                         merged': Key -> map<string, Bytes>) {
    forall k :: merged'(k) == (if k == key then added else map[]) + merged(k)
  }

  /** `db'` has the contents and links of `added` written for compilation `id`. */
  ghost predicate Wrote(db: Db, added: map<string, Bytes>, hashes: map<string, Bytes>, id: nat, db': Db) {
    && db'.links == InsertLinks(db.links, hashes, id)
    && Submap(db.sources, db'.sources) && hashes.Keys == added.Keys
    && forall path :: path in added ==>
         hashes[path] in db'.sources && db'.sources[hashes[path]].content == added[path]
  }

  lemma RetrieveAfterWrite(db: Db, added: map<string, Bytes>, hashes: map<string, Bytes>, id: nat, db': Db, i: nat)
    requires LinksOk(db.links, |db.compiled|, db.sources) && Wrote(db, added, hashes, id, db')
    ensures RetrieveSources(db, i).Ok?
    ensures i >= |db.compiled| ==> RetrieveSources(db, i).value == map[]
    ensures RetrieveSources(db', i) == Ok((if i == id then added else map[]) + RetrieveSources(db, i).value)
  {
    var links := LinksOf(db.links, i);
    if i == id {
      LinkedMerge(links, db.sources, hashes, db'.sources, added);
    } else {
      LinkedMerge(links, db.sources, map[], db'.sources, map[]);
      assert map[] + links == links;
    }
  }

  lemma WriteVerifiedWrote(h: Hasher, db: Db, v: VerifiedContract)
    requires SourcesOk(h, db.sources)
    ensures var (db', id) := WriteVerified(h, db, v);
            Wrote(db, v.compiledContract.sources, SourceHashes(h, v.compiledContract.sources), id, db')
  {
    WriteVerifiedShape(h, db, v);
    SourcesWritten(h, db.sources, v.compiledContract.sources);
  }

  /** Row `i` has the key of `row` exactly when it is the row the insert found or wrote. */
  lemma InsertedKey(t: seq<CompiledRow>, row: CompiledRow, i: nat)
    requires UniqueKeys(t, CompiledKey) && i < |InsertSerial(t, CompiledKey, row).0|
    ensures var (t', id) := InsertSerial(t, CompiledKey, row);
            && (i == id <==> CompiledKey(t'[i]) == CompiledKey(row))
            && (i < |t| ==> t'[i] == t[i])
            && (i >= |t| ==> i == id && forall j :: 0 <= j < |t| ==> CompiledKey(t[j]) != CompiledKey(row))
  {
    InsertSerialUnique(t, CompiledKey, row);
  }

  lemma NothingElseStep(t: seq<CompiledRow>, row: CompiledRow, merged: Key -> map<string, Bytes>,
                        added: map<string, Bytes>, merged': Key -> map<string, Bytes>)
    requires NothingElse(t, merged) && AddsTo(merged, CompiledKey(row), added, merged')
    ensures NothingElse(InsertSerial(t, CompiledKey, row).0, merged')
  {
    var (t', id) := InsertSerial(t, CompiledKey, row);
    forall key | forall i :: 0 <= i < |t'| ==> CompiledKey(t'[i]) != key ensures merged'(key) == map[] {
      assert key != CompiledKey(t'[id]);
      forall i | 0 <= i < |t| ensures CompiledKey(t[i]) != key {
        assert t'[i] == t[i];
      }
      assert merged'(key) == map[] + merged(key);
    }
  }

  lemma MergedRowStep(t: seq<CompiledRow>, row: CompiledRow, merged: Key -> map<string, Bytes>,
                      added: map<string, Bytes>, merged': Key -> map<string, Bytes>, i: nat, held: map<string, Bytes>)
    requires UniqueKeys(t, CompiledKey) && NothingElse(t, merged)
    requires AddsTo(merged, CompiledKey(row), added, merged')
    requires i < |InsertSerial(t, CompiledKey, row).0|
    requires held == if i < |t| then merged(CompiledKey(t[i])) else map[]
    ensures var (t', id) := InsertSerial(t, CompiledKey, row);
            (if i == id then added else map[]) + held == merged'(CompiledKey(t'[i]))
  {
    InsertedKey(t, row, i);
  }

  lemma MergedStep(db: Db, row: CompiledRow, added: map<string, Bytes>, hashes: map<string, Bytes>,
                   merged: Key -> map<string, Bytes>, merged': Key -> map<string, Bytes>, id: nat, db': Db)
    requires Merged(db, merged) && Wrote(db, added, hashes, id, db')
    requires LinksOk(db.links, |db.compiled|, db.sources) && UniqueKeys(db.compiled, CompiledKey)
    requires (db'.compiled, id) == InsertSerial(db.compiled, CompiledKey, row)
    requires AddsTo(merged, CompiledKey(row), added, merged')
    ensures Merged(db', merged')
  {
    NothingElseStep(db.compiled, row, merged, added, merged');
    forall i: nat | i < |db'.compiled| ensures RowMerged(db', merged', i) {
      RetrieveAfterWrite(db, added, hashes, id, db', i);
      assert i < |db.compiled| ==> RowMerged(db, merged, i);
      MergedRowStep(db.compiled, row, merged, added, merged', i, RetrieveSources(db, i).value);
    }
  }

  ghost predicate MergedAfter(h: Hasher, ops: seq<Op>) {
    Merged(Run(h, EMPTY, ops), k => AcceptedSources(h, ops, k))
  }

  lemma AcceptedSourcesStep(h: Hasher, ops: seq<Op>, op: Op, key: Key)
    ensures AcceptedSources(h, ops + [op], key)
            == (if Accepted(Run(h, EMPTY, ops), op)
                   && key == CompiledKey(CompiledRowOf(h, op.contract.compiledContract))
                then op.contract.compiledContract.sources else map[]) + AcceptedSources(h, ops, key)
  {
    assert (ops + [op])[..|ops|] == ops;
  }

  lemma MergedSame(db: Db, db': Db, merged: Key -> map<string, Bytes>, merged': Key -> map<string, Bytes>)
    requires Merged(db, merged) && forall k :: merged'(k) == map[] + merged(k)
    requires db'.compiled == db.compiled && db'.links == db.links && db'.sources == db.sources
    ensures Merged(db', merged')
  {
    forall k ensures merged'(k) == merged(k) {
      assert merged'(k) == map[] + merged(k);
    }
    forall i: nat | i < |db'.compiled| ensures RowMerged(db', merged', i) {
      assert RowMerged(db, merged, i);
    }
  }

  lemma MergedWrite(h: Hasher, db: Db, v: VerifiedContract, merged: Key -> map<string, Bytes>,
                    merged': Key -> map<string, Bytes>)
    requires Inv(h, db) && Merged(db, merged)
    requires AddsTo(merged, CompiledKey(CompiledRowOf(h, v.compiledContract)), v.compiledContract.sources, merged')
    ensures Merged(WriteVerified(h, db, v).0, merged')
  {
    var c := v.compiledContract;
    var (db', id) := WriteVerified(h, db, v);
    WriteVerifiedShape(h, db, v);
    WriteVerifiedWrote(h, db, v);
    MergedStep(db, CompiledRowOf(h, c), c.sources, SourceHashes(h, c.sources), merged, merged', id, db');
  }

  lemma MergedAfterStep(h: Hasher, ops: seq<Op>, op: Op)
    requires MergedAfter(h, ops) && Inv(h, Run(h, EMPTY, ops))
    ensures MergedAfter(h, ops + [op])
  {
    var db := Run(h, EMPTY, ops);
    var merged := k => AcceptedSources(h, ops, k);
    var merged' := k => AcceptedSources(h, ops + [op], k);
    assert (ops + [op])[..|ops|] == ops;
    forall k { AcceptedSourcesStep(h, ops, op, k); }
    if Accepted(db, op) {
      MergedWrite(h, db, op.contract, merged, merged');
    } else {
      MergedSame(db, Apply(h, db, op), merged, merged');
    }
  }

  lemma {:induction false} MergedAlways(h: Hasher, ops: seq<Op>)
    ensures MergedAfter(h, ops)
  {
    if ops != [] {
      var n := |ops| - 1;
      MergedAlways(h, ops[..n]);
      EmptyOk(h);
      RunStep(h, EMPTY, ops[..n]);
      assert ops == ops[..n] + [ops[n]];
      MergedAfterStep(h, ops[..n], ops[n]);
    }
  }

  /** For every compilation in every run, the retrieved sources are the merge of all source maps accepted
      for its key, although hashes, contents and links are written separately. */
  lemma RetrievedSourcesAreMerged(h: Hasher, ops: seq<Op>, i: nat)
    requires i < |Run(h, EMPTY, ops).compiled|
    ensures var db := Run(h, EMPTY, ops);
            RetrieveSources(db, i) == Ok(AcceptedSources(h, ops, CompiledKey(db.compiled[i])))
  {
    MergedAlways(h, ops);
    assert RowMerged(Run(h, EMPTY, ops), k => AcceptedSources(h, ops, k), i);
  }

  // ---- a verified contract is retrieved as it was inserted ----

  /** `c` with the columns that are not part of its key taken from a row, and the given sources. */
  function FromRow(row: CompiledRow, c: CompiledContract, sources: map<string, Bytes>): CompiledContract {
    c.(version := row.version, name := row.name, fullyQualifiedName := row.fullyQualifiedName,
       compilerSettings := row.compilerSettings, compilationArtifacts := row.compilationArtifacts,
       creationCodeArtifacts := row.creationCodeArtifacts, runtimeCodeArtifacts := row.runtimeCodeArtifacts,
       sources := sources)
  }

  ghost predicate HoldsCode(db: Db, hash: Bytes, code: Bytes) {
    RetrieveCode(db, hash).Ok? && RetrieveCode(db, hash).value.code == Some(code)
  }

  lemma LoadFrom(h: Hasher, db: Db, verified: VerifiedRow, c: CompiledContract, m: Matches, sources: map<string, Bytes>)
    requires verified.compilationId < |db.compiled|
    requires CompiledKey(db.compiled[verified.compilationId]) == CompiledKey(CompiledRowOf(h, c))
    requires HoldsCode(db, h.sha256(c.creationCode), c.creationCode)
    requires HoldsCode(db, h.sha256(c.runtimeCode), c.runtimeCode)
    requires RetrieveSources(db, verified.compilationId) == Ok(sources)
    requires MatchesOf(verified) == Ok(m)
    ensures LoadVerified(db, verified)
            == Ok(VerifiedContract(verified.deploymentId, FromRow(db.compiled[verified.compilationId], c, sources), m))
  {
    CompiledRowIsOk(h, c, db.code);
  }

  lemma WrittenCode(h: Hasher, db: Db, v: VerifiedContract)
    requires CodeOk(h, db.code)
    ensures var (db', c) := (WriteVerified(h, db, v).0, v.compiledContract);
            && HoldsCode(db', h.sha256(c.creationCode), c.creationCode)
            && HoldsCode(db', h.sha256(c.runtimeCode), c.runtimeCode)
  {
    var c := v.compiledContract;
    InsertCodeOk(h, db.code, c.creationCode);
    InsertCodeOk(h, InsertCode(h, db.code, c.creationCode), c.runtimeCode);
  }

  /** What an accepted contract is retrieved as when its pair was new: itself if its compilation was new; otherwise
      with the columns of the first row of that compilation, and with its sources merged into those there were. */
  function StoredAs(h: Hasher, db: Db, v: VerifiedContract): VerifiedContract {
    var id := CompilationId(h, db, v.compiledContract);
    var held := RetrieveSources(db, id);
    if id >= |db.compiled| || held.Err? then v
    else v.(compiledContract := FromRow(db.compiled[id], v.compiledContract,
                                        v.compiledContract.sources + held.value))
  }

  lemma StoredColumns(h: Hasher, db: Db, v: VerifiedContract, compiled: seq<CompiledRow>, id: nat,
                      held: map<string, Bytes>)
    requires RetrieveSources(db, id) == Ok(held) && (id >= |db.compiled| ==> held == map[])
    requires (compiled, id) == InsertSerial(db.compiled, CompiledKey, CompiledRowOf(h, v.compiledContract))
    ensures StoredAs(h, db, v)
            == v.(compiledContract := FromRow(compiled[id], v.compiledContract, v.compiledContract.sources + held))
  {
    var c := v.compiledContract;
    InsertedColumns(h, db.compiled, c, c.sources + held);
    assert c.sources + map[] == c.sources;
  }

  lemma LoadWritten(h: Hasher, db: Db, v: VerifiedContract, hashes: map<string, Bytes>, db': Db, id: nat,
                    row: VerifiedRow)
    requires LinksOk(db.links, |db.compiled|, db.sources) && Wrote(db, v.compiledContract.sources, hashes, id, db')
    requires (db'.compiled, id) == InsertSerial(db.compiled, CompiledKey, CompiledRowOf(h, v.compiledContract))
    requires HoldsCode(db', h.sha256(v.compiledContract.creationCode), v.compiledContract.creationCode)
    requires HoldsCode(db', h.sha256(v.compiledContract.runtimeCode), v.compiledContract.runtimeCode)
    requires row.compilationId == id && row.deploymentId == v.contractDeploymentId && MatchesOf(row) == Ok(v.matches)
    ensures LoadVerified(db', row) == Ok(StoredAs(h, db, v))
  {
    var sources := v.compiledContract.sources;
    RetrieveAfterWrite(db, sources, hashes, id, db', id);
    var held := RetrieveSources(db, id).value;
    StoredColumns(h, db, v, db'.compiled, id, held);
    LoadFrom(h, db', row, v.compiledContract, v.matches, sources + held);
  }

  lemma LoadInserted(h: Hasher, db: Db, v: VerifiedContract, db': Db, id: nat, row: VerifiedRow)
    requires Inv(h, db) && (db', id) == WriteVerified(h, db, v)
    requires row == VerifiedRowOf(v.contractDeploymentId, id, v.matches)
    ensures LoadVerified(db', row) == Ok(StoredAs(h, db, v))
  {
    WriteVerifiedShape(h, db, v);
    WrittenCode(h, db, v);
    WriteVerifiedWrote(h, db, v);
    RowStatusesOf(v.contractDeploymentId, id, v.matches);
    LoadWritten(h, db, v, SourceHashes(h, v.compiledContract.sources), db', id, row);
  }

  lemma InsertedColumns(h: Hasher, t: seq<CompiledRow>, c: CompiledContract, sources: map<string, Bytes>)
    ensures var (t', id) := InsertSerial(t, CompiledKey, CompiledRowOf(h, c));
            if id < |t| then t'[id] == t[id] else FromRow(t'[id], c, sources) == c.(sources := sources)
  {
  }

  /** Rows of other compilations are loaded as before the write. */
  lemma LoadOther(h: Hasher, db: Db, added: map<string, Bytes>, hashes: map<string, Bytes>, id: nat, db': Db, i: nat)
    requires Inv(h, db) && Wrote(db, added, hashes, id, db') && i < |db.verified| && db.verified[i].compilationId != id
    requires db.compiled <= db'.compiled && Submap(db.code, db'.code)
    ensures LoadVerified(db', db.verified[i]) == LoadVerified(db, db.verified[i])
  {
    var row := db.verified[i];
    RetrieveAfterWrite(db, added, hashes, id, db', row.compilationId);
    assert map[] + RetrieveSources(db, row.compilationId).value == RetrieveSources(db, row.compilationId).value;
    assert CompiledRowOk(db.compiled[row.compilationId], db.code);
  }

  /** Every verified row of the deployment among the first `n` is loaded the same from both. */
  ghost predicate LoadedSame(db: Db, db': Db, deploymentId: nat, n: nat)
    requires n <= |db.verified|
  {
    forall i :: 0 <= i < n && db.verified[i].deploymentId == deploymentId
                ==> LoadVerified(db', db.verified[i]) == LoadVerified(db, db.verified[i])
  }

  lemma {:induction false} CollectSame(db: Db, db': Db, deploymentId: nat, n: nat)
    requires n <= |db.verified| && db.verified <= db'.verified && LoadedSame(db, db', deploymentId, n)
    ensures CollectVerified(db', deploymentId, n) == CollectVerified(db, deploymentId, n)
  {
    if n > 0 {
      CollectSame(db, db', deploymentId, n - 1);
      assert db'.verified[n - 1] == db.verified[n - 1];
    }
  }

  lemma OthersLoadedSame(h: Hasher, db: Db, v: VerifiedContract, db': Db, id: nat)
    requires Inv(h, db) && (db', id) == WriteVerified(h, db, v) && !PairKnown(h, db, v)
    ensures LoadedSame(db, db', v.contractDeploymentId, |db.verified|)
  {
    var sources := v.compiledContract.sources;
    WriteVerifiedShape(h, db, v);
    WriteVerifiedTables(h, db, v);
    WriteVerifiedWrote(h, db, v);
    PairKnownIff(h, db, v);
    forall i | 0 <= i < |db.verified| && db.verified[i].deploymentId == v.contractDeploymentId
      ensures LoadVerified(db', db.verified[i]) == LoadVerified(db, db.verified[i])
    {
      assert VerifiedKey(db.verified[i]) != (id, v.contractDeploymentId);
      LoadOther(h, db, sources, SourceHashes(h, sources), id, db', i);
    }
  }

  /** The lookup gives what it gave before, and `v` after it. */
  ghost predicate FoundAlso(db: Db, db': Db, chainId: int, address: Bytes, v: VerifiedContract) {
    var before, after := FindVerified(db, chainId, address), FindVerified(db', chainId, address);
    before.Ok? && after.Ok? && after.value == before.value + [v]
  }

  lemma CollectMore(db: Db, deploymentId: nat, n: nat, found: seq<VerifiedContract>, v: VerifiedContract)
    requires n < |db.verified| && db.verified[n].deploymentId == deploymentId
    requires CollectVerified(db, deploymentId, n) == Ok(found) && LoadVerified(db, db.verified[n]) == Ok(v)
    ensures CollectVerified(db, deploymentId, n + 1) == Ok(found + [v])
  {
  }

  lemma FindMore(h: Hasher, db: Db, db': Db, chainId: int, address: Bytes, id: nat, row: VerifiedRow,
                 v: VerifiedContract)
    requires Inv(h, db) && db'.deployments == db.deployments && db'.verified == db.verified + [row]
    requires Latest(db.deployments, chainId, address) == Some(id) && row.deploymentId == id
    requires LoadedSame(db, db', id, |db.verified|) && LoadVerified(db', row) == Ok(v)
    ensures FoundAlso(db, db', chainId, address, v)
  {
    CollectVerifiedOk(h, db, id, |db.verified|);
    CollectSame(db, db', id, |db.verified|);
    CollectMore(db', id, |db.verified|, CollectVerified(db, id, |db.verified|).value, v);
  }

  lemma FindAfterWrite(h: Hasher, db: Db, v: VerifiedContract, chainId: int, address: Bytes)
    requires Inv(h, db) && VerifyOutcome(db, v).Ok? && !PairKnown(h, db, v)
    requires Latest(db.deployments, chainId, address) == Some(v.contractDeploymentId)
    ensures FoundAlso(db, Apply(h, db, Verify(v)), chainId, address, StoredAs(h, db, v))
  {
    var (db', id) := WriteVerified(h, db, v);
    var row := VerifiedRowOf(v.contractDeploymentId, id, v.matches);
    AcceptedRow(h, db, v);
    WriteVerifiedShape(h, db, v);
    OthersLoadedSame(h, db, v, db', id);
    LoadInserted(h, db, v, db', id, row);
    FindMore(h, db, db', chainId, address, v.contractDeploymentId, row, StoredAs(h, db, v));
  }

  /** When its pair of compilation and deployment is new and the deployment is the latest of its address, an accepted
      contract is found after everything found before, as `StoredAs` says: if its compilation is new too, equal in
      every field to what was submitted. */
  lemma VerifiedRoundTrip(h: Hasher, ops: seq<Op>, v: VerifiedContract, chainId: int, address: Bytes)
    requires Accepted(Run(h, EMPTY, ops), Verify(v)) && !PairKnown(h, Run(h, EMPTY, ops), v)
    requires Latest(Run(h, EMPTY, ops).deployments, chainId, address) == Some(v.contractDeploymentId)
    ensures FoundAlso(Run(h, EMPTY, ops), Run(h, EMPTY, ops + [Verify(v)]), chainId, address,
                      StoredAs(h, Run(h, EMPTY, ops), v))
    ensures CompilationId(h, Run(h, EMPTY, ops), v.compiledContract) == |Run(h, EMPTY, ops).compiled|
            ==> StoredAs(h, Run(h, EMPTY, ops), v) == v
  {
    EmptyOk(h);
    RunStep(h, EMPTY, ops);
    RunMore(h, ops, Verify(v));
    FindAfterWrite(h, Run(h, EMPTY, ops), v, chainId, address);
  }

  /** For a known compilation the sources are the merge of all accepted for its key, the first content of a path
      winning; compiler, language, codes and matches are those submitted. */
  lemma KnownCompilationStored(h: Hasher, ops: seq<Op>, v: VerifiedContract)
    requires CompilationId(h, Run(h, EMPTY, ops), v.compiledContract) < |Run(h, EMPTY, ops).compiled|
    ensures var db := Run(h, EMPTY, ops);
            var row := db.compiled[CompilationId(h, db, v.compiledContract)];
            var merged := v.compiledContract.sources + AcceptedSources(h, ops, CompiledKey(row));
            StoredAs(h, db, v) == v.(compiledContract := FromRow(row, v.compiledContract, merged))
  {
    RetrievedSourcesAreMerged(h, ops, CompilationId(h, Run(h, EMPTY, ops), v.compiledContract));
  }

  // ---- a verified contract stays ----

  lemma SourcesGrow(db: Db, db': Db, id: nat)
    requires Extends(db, db') && RetrieveSources(db, id).Ok? && RetrieveSources(db', id).Ok?
    ensures Submap(RetrieveSources(db, id).value, RetrieveSources(db', id).value)
  {
    var links, links' := LinksOf(db.links, id), LinksOf(db'.links, id);
    assert Submap(links, links');
  }

  lemma LoadLater(h: Hasher, db: Db, db': Db, i: nat, sources: map<string, Bytes>)
    requires Inv(h, db) && Extends(db, db') && i < |db.verified|
    requires RetrieveSources(db', db.verified[i].compilationId) == Ok(sources)
    ensures var v := LoadVerified(db, db.verified[i]);
            v.Ok? && LoadVerified(db', db.verified[i])
                     == Ok(v.value.(compiledContract := v.value.compiledContract.(sources := sources)))
  {
    LoadVerifiedOk(h, db, i);
    assert CompiledRowOk(db.compiled[db.verified[i].compilationId], db.code);
  }

  lemma LoadedSources(db: Db, row: VerifiedRow)
    requires LoadVerified(db, row).Ok?
    ensures RetrieveSources(db, row.compilationId) == Ok(LoadVerified(db, row).value.compiledContract.sources)
  {
  }

  /** After any further run a verified row is still there under its number, and loads as the same contract but for its
      sources: these only grow, and are the merge of all accepted by then for its compilation. */
  lemma VerifiedStays(h: Hasher, before: seq<Op>, after: seq<Op>, i: nat)
    requires i < |Run(h, EMPTY, before).verified|
    ensures var db, db' := Run(h, EMPTY, before), Run(h, EMPTY, before + after);
            var row := db.verified[i];
            var v := LoadVerified(db, row);
            && i < |db'.verified| && db'.verified[i] == row && v.Ok? && row.compilationId < |db.compiled|
            && var sources := AcceptedSources(h, before + after, CompiledKey(db.compiled[row.compilationId]));
               && Submap(v.value.compiledContract.sources, sources)
               && LoadVerified(db', row)
                  == Ok(v.value.(compiledContract := v.value.compiledContract.(sources := sources)))
  {
    EmptyOk(h);
    RunStep(h, EMPTY, before);
    RunConcat(h, EMPTY, before, after);
    RunStep(h, Run(h, EMPTY, before), after);
    var db, db' := Run(h, EMPTY, before), Run(h, EMPTY, before + after);
    var id := db.verified[i].compilationId;
    assert id < |db.compiled| && db'.compiled[id] == db.compiled[id];
    RetrievedSourcesAreMerged(h, before + after, id);
    LoadLater(h, db, db', i, RetrieveSources(db', id).value);
    LoadedSources(db, db.verified[i]);
    SourcesGrow(db, db', id);
  }

  // ---- submitting twice ----

  lemma InsertCodeTwice(h: Hasher, t: map<Bytes, CodeRow>, code: Bytes)
    requires h.sha256(code) in t
    ensures InsertCode(h, t, code) == t
  {
  }

  lemma DeployTwice(h: Hasher, db: Db, d: InsertContractDeployment, now: int, later: int)
    requires Inv(h, db)
    ensures var db' := InsertDeployment(h, db, d, now).0; InsertDeployment(h, db', d, later).0 == db'
  {
    if FitsDecimal(d) {
      var data := ParseDeployment(h, d);
      InsertContractOk(h, db, data.contractCode);
      var (db1, contractId) := InsertContract(h, db, data.contractCode);
      InsertSerialTwice(db.contracts, ContractKey, InsertContractCode(h, db.code, data.contractCode).1,
                        InsertContractCode(h, db.code, data.contractCode).1);
      InsertSerialTwice(db.deployments, DeploymentKey, DeploymentRowOf(data, contractId, now),
                        DeploymentRowOf(data, contractId, later));
    }
  }

  /** When every insert of a contract finds its row, nothing is written. */
  lemma NothingToWrite(h: Hasher, db: Db, v: VerifiedContract, id: nat)
    requires h.sha256(v.compiledContract.creationCode) in db.code
    requires h.sha256(v.compiledContract.runtimeCode) in db.code
    requires InsertSerial(db.compiled, CompiledKey, CompiledRowOf(h, v.compiledContract)) == (db.compiled, id)
    requires InsertSources(h, db.sources, v.compiledContract.sources.Values) == db.sources
    requires InsertLinks(db.links, SourceHashes(h, v.compiledContract.sources), id) == db.links
    requires InsertSerial(db.verified, VerifiedKey, VerifiedRowOf(v.contractDeploymentId, id, v.matches)).0
             == db.verified
    ensures WriteVerified(h, db, v).0 == db
  {
    InsertCodeTwice(h, db.code, v.compiledContract.creationCode);
    InsertCodeTwice(h, db.code, v.compiledContract.runtimeCode);
  }

  lemma InsertSourcesTwice(h: Hasher, t: map<Bytes, SourceRow>, contents: set<Bytes>)
    ensures var t' := InsertSources(h, t, contents); InsertSources(h, t', contents) == t'
  {
  }

  lemma InsertLinksTwice(t: map<nat, map<string, Bytes>>, hashes: map<string, Bytes>, id: nat)
    ensures var t' := InsertLinks(t, hashes, id); InsertLinks(t', hashes, id) == t'
  {
    var links := hashes + LinksOf(t, id);
    assert hashes + links == links;
  }

  lemma VerifyTwice(h: Hasher, db: Db, v: VerifiedContract)
    requires Inv(h, db)
    ensures var db' := InsertVerified(h, db, v).0; InsertVerified(h, db', v).0 == db'
  {
    if VerifyOutcome(db, v).Ok? {
      var (db', id) := WriteVerified(h, db, v);
      var sources := v.compiledContract.sources;
      var row := VerifiedRowOf(v.contractDeploymentId, id, v.matches);
      WriteVerifiedShape(h, db, v);
      WrittenCode(h, db, v);
      InsertSerialTwice(db.compiled, CompiledKey, CompiledRowOf(h, v.compiledContract),
                        CompiledRowOf(h, v.compiledContract));
      InsertSerialTwice(db.verified, VerifiedKey, row, row);
      InsertSourcesTwice(h, db.sources, sources.Values);
      InsertLinksTwice(db.links, SourceHashes(h, sources), id);
      NothingToWrite(h, db', v, id);
    }
  }

  lemma ApplyTwice(h: Hasher, db: Db, op: Op, again: Op)
    requires Inv(h, db) && (again == op || (op.Deploy? && again.Deploy? && again.deployment == op.deployment))
    ensures Apply(h, Apply(h, db, op), again) == Apply(h, db, op)
  {
    match op {
      case Deploy(d, now) => DeployTwice(h, db, d, now, again.now);
      case Verify(v) => VerifyTwice(h, db, v);
    }
  }

  /** Submitting the same deployment or contract twice in a row leaves all seven tables as after the first
      submission, whether that one was accepted, absorbed by existing rows or rejected. */
  lemma SubmitTwice(h: Hasher, ops: seq<Op>, op: Op, again: Op)
    requires again == op || (op.Deploy? && again.Deploy? && again.deployment == op.deployment)
    ensures Run(h, EMPTY, ops + [op, again]) == Run(h, EMPTY, ops + [op])
  {
    EmptyOk(h);
    RunStep(h, EMPTY, ops);
    RunMore(h, ops, op);
    RunMore(h, ops + [op], again);
    assert ops + [op] + [again] == ops + [op, again];
    ApplyTwice(h, Run(h, EMPTY, ops), op, again);
  }
}

/** The store's transactions and lookups as functions from tables to tables. */
module AllianceStore {
  import opened Prelude
  import opened AllianceTypes
  import opened AllianceTables

  // ---- inserting a deployment ----

  datatype DeploymentData = DeploymentData(
    chainId: int, address: Bytes, transactionHash: Bytes, blockNumber: int, transactionIndex: int,
    deployer: Bytes, contractCode: ContractCode)

  predicate FitsDecimal(d: InsertContractDeployment) {
    d.Regular? ==> d.blockNumber <= DECIMAL_MAX && d.transactionIndex <= DECIMAL_MAX
  }

  function ParseDeployment(h: Hasher, d: InsertContractDeployment): DeploymentData {
    match d
    case Genesis(chainId, address, runtimeCode) =>
      DeploymentData(chainId, address, h.keccak256(runtimeCode), -1, -1, [], OnlyRuntimeCode(runtimeCode))
    case Regular(chainId, address, transactionHash, block, index, deployer, creationCode, runtimeCode) =>
      DeploymentData(chainId, address, transactionHash, block, index, deployer,
                     CompleteCode(creationCode, runtimeCode))
  }

  function InsertCode(h: Hasher, t: map<Bytes, CodeRow>, code: Bytes): map<Bytes, CodeRow> {
    InsertKeyed(t, h.sha256(code), CodeRow(h.keccak256(code), Some(code)))
  }

  function InsertContractCode(h: Hasher, t: map<Bytes, CodeRow>, c: ContractCode): (map<Bytes, CodeRow>, ContractRow) {
    match c
    case OnlyRuntimeCode(code) => (InsertCode(h, t, code), ContractRow([], h.sha256(code)))
    case CompleteCode(creation, runtime) =>
      (InsertCode(h, InsertCode(h, t, creation), runtime), ContractRow(h.sha256(creation), h.sha256(runtime)))
  }

  function InsertContract(h: Hasher, db: Db, c: ContractCode): (Db, nat) {
    var (code, row) := InsertContractCode(h, db.code, c);
    var (contracts, id) := InsertSerial(db.contracts, ContractKey, row);
    (db.(code := code, contracts := contracts), id)
  }

  function DeploymentRowOf(d: DeploymentData, contractId: nat, now: int): DeploymentRow {
    DeploymentRow(d.chainId, d.address, d.transactionHash, d.blockNumber, d.transactionIndex, d.deployer,
                  contractId, now)
  }

  /** The transaction of `insert_contract_deployment`. The codes of the result are the submitted ones. */
  function InsertDeployment(h: Hasher, db: Db, d: InsertContractDeployment, now: int)
    : (Db, Result<ContractDeployment, Error>)
  {
    if !FitsDecimal(d) then (db, Err(DecimalOverflow))
    else
      var data := ParseDeployment(h, d);
      var (db1, contractId) := InsertContract(h, db, data.contractCode);
      var (deployments, id) :=
        InsertSerial(db1.deployments, DeploymentKey, DeploymentRowOf(data, contractId, now));
      (db1.(deployments := deployments),
       Ok(ContractDeployment(id, d.chainId, d.address, d.runtimeCode, d.CreationCode(), deployments[id])))
  }

  // ---- the gate in front of verified contracts ----

  datatype MatchStatus = NoMatch | WithoutMetadata | WithMetadata
  {
    function Rank(): nat {
      match this case NoMatch => 0 case WithoutMetadata => 1 case WithMetadata => 2
    }
  }

  function StatusOfMatch(m: Match): MatchStatus {
    if m.metadataMatch then WithMetadata else WithoutMetadata
  }

  function StatusOfColumns(c: MatchColumns): MatchStatus {
    if !c.doesMatch then NoMatch
    else if c.metadataMatch == Some(true) then WithMetadata
    else WithoutMetadata
  }

  function Statuses(m: Matches): (MatchStatus, MatchStatus) {
    match m
    case OnlyCreation(c) => (StatusOfMatch(c), NoMatch)
    case OnlyRuntime(r) => (NoMatch, StatusOfMatch(r))
    case Complete(c, r) => (StatusOfMatch(c), StatusOfMatch(r))
  }

  function RowStatuses(r: VerifiedRow): (MatchStatus, MatchStatus) {
    (StatusOfColumns(r.creation), StatusOfColumns(r.runtime))
  }

  predicate HasMetadata(s: (MatchStatus, MatchStatus)) {
    s.0 == WithMetadata || s.1 == WithMetadata
  }

  predicate IsWorse(existing: (MatchStatus, MatchStatus), candidate: (MatchStatus, MatchStatus)) {
    existing.0.Rank() < candidate.0.Rank() || existing.1.Rank() < candidate.1.Rank()
  }

  predicate ShouldStore(verified: seq<VerifiedRow>, deploymentId: nat, m: Matches) {
    var candidate := Statuses(m);
    HasMetadata(candidate)
    || forall i :: 0 <= i < |verified| && verified[i].deploymentId == deploymentId
                   ==> IsWorse(RowStatuses(verified[i]), candidate)
  }

  // ---- inserting a verified contract ----

  function CompilerName(c: Compiler): string {
    match c case Solc => "solc" case VyperCompiler => "vyper"
  }

  function LanguageName(l: Language): string {
    match l case Solidity => "solidity" case Yul => "yul" case VyperLanguage => "vyper"
  }

  function CompiledRowOf(h: Hasher, c: CompiledContract): CompiledRow {
    CompiledRow(CompilerName(c.compiler), c.version, LanguageName(c.language), c.name, c.fullyQualifiedName,
                c.compilerSettings, c.compilationArtifacts, h.sha256(c.creationCode), c.creationCodeArtifacts,
                h.sha256(c.runtimeCode), c.runtimeCodeArtifacts)
  }

  function InsertCompiled(h: Hasher, db: Db, c: CompiledContract): (Db, nat) {
    var code := InsertCode(h, InsertCode(h, db.code, c.creationCode), c.runtimeCode);
    var (compiled, id) := InsertSerial(db.compiled, CompiledKey, CompiledRowOf(h, c));
    (db.(code := code, compiled := compiled), id)
  }

  function SourceRows(h: Hasher, contents: set<Bytes>): map<Bytes, SourceRow> {
    Injective(h);
    map c | c in contents :: h.sha256(c) := SourceRow(h.keccak256(c), c)
  }

  /** One row per distinct content; a hash already present keeps its row. */
  function InsertSources(h: Hasher, t: map<Bytes, SourceRow>, contents: set<Bytes>): map<Bytes, SourceRow> {
    SourceRows(h, contents) + t
  }

  function SourceHashes(h: Hasher, sources: map<string, Bytes>): map<string, Bytes> {
    map path | path in sources :: h.sha256(sources[path])
  }

  function LinksOf(t: map<nat, map<string, Bytes>>, compilationId: nat): map<string, Bytes> {
    if compilationId in t then t[compilationId] else map[]
  }

  /** One link per path; a path already linked for this compilation keeps its link. */
  function InsertLinks(t: map<nat, map<string, Bytes>>, hashes: map<string, Bytes>, compilationId: nat)
    : map<nat, map<string, Bytes>>
  {
    t[compilationId := hashes + LinksOf(t, compilationId)]
  }

  const NO_MATCH := MatchColumns(false, None, None, None)

  function ColumnsOf(m: Match): MatchColumns {
    MatchColumns(true, Some(m.metadataMatch), Some(m.values), Some(m.transformations))
  }

  function VerifiedRowOf(deploymentId: nat, compilationId: nat, m: Matches): VerifiedRow {
    match m
    case OnlyRuntime(r) => VerifiedRow(deploymentId, compilationId, NO_MATCH, ColumnsOf(r))
    case OnlyCreation(c) => VerifiedRow(deploymentId, compilationId, ColumnsOf(c), NO_MATCH)
    case Complete(c, r) => VerifiedRow(deploymentId, compilationId, ColumnsOf(c), ColumnsOf(r))
  }

  /** The tables after the four inserts of a verified contract, before the foreign key is checked. */
  function WriteVerified(h: Hasher, db: Db, v: VerifiedContract): (Db, nat) {
    var sources := v.compiledContract.sources;
    var (db1, id) := InsertCompiled(h, db, v.compiledContract);
    var db2 := db1.(sources := InsertSources(h, db1.sources, sources.Values),
                    links := InsertLinks(db1.links, SourceHashes(h, sources), id));
    (db2.(verified := InsertSerial(db2.verified, VerifiedKey,
                                   VerifiedRowOf(v.contractDeploymentId, id, v.matches)).0), id)
  }

  function VerifyOutcome(db: Db, v: VerifiedContract): Result<(), Error> {
    if !ShouldStore(db.verified, v.contractDeploymentId, v.matches) then Err(NotBetterThanExisting)
    else if v.contractDeploymentId >= |db.deployments| then Err(ForeignKeyViolation)
    else Ok(())
  }

  /** The transaction of `insert_verified_contract`; an error rolls every write back. */
  function InsertVerified(h: Hasher, db: Db, v: VerifiedContract): (Db, Result<(), Error>) {
    var outcome := VerifyOutcome(db, v);
    if outcome.Ok? then (WriteVerified(h, db, v).0, outcome) else (db, outcome)
  }

  // ---- lookups ----

  function RetrieveTransactionHash(h: Hasher, q: RetrieveContractDeployment): Result<Bytes, Error> {
    if q.transactionHash.Some? then Ok(q.transactionHash.value)
    else if q.runtimeCode.Some? then Ok(h.keccak256(q.runtimeCode.value))
    else Err(NoTransactionHash)
  }

  function RetrieveCode(db: Db, hash: Bytes): Result<CodeRow, Error> {
    if hash in db.code then Ok(db.code[hash]) else Err(CodeNotFound)
  }

  /** The deployment of row `id` together with the codes its contract points at. */
  function LoadDeployment(db: Db, id: nat): Result<ContractDeployment, Error>
    requires id < |db.deployments|
  {
    var row := db.deployments[id];
    if row.contractId >= |db.contracts| then Err(ContractNotFound)
    else
      var contract := db.contracts[row.contractId];
      match RetrieveCode(db, contract.creationCodeHash)
      case Err(e) => Err(e)
      case Ok(creation) =>
        match RetrieveCode(db, contract.runtimeCodeHash)
        case Err(e) => Err(e)
        case Ok(runtime) =>
          if runtime.code.None? then Err(NoRuntimeCode)
          else Ok(ContractDeployment(id, row.chainId, row.address, runtime.code.value, creation.code, row))
  }

  function FindDeployment(h: Hasher, db: Db, q: RetrieveContractDeployment)
    : Result<Option<ContractDeployment>, Error>
  {
    match RetrieveTransactionHash(h, q)
    case Err(e) => Err(e)
    case Ok(hash) =>
      match FindKey(db.deployments, DeploymentKey, (q.chainId, q.address, hash))
      case None => Ok(None)
      case Some(id) =>
        match LoadDeployment(db, id)
        case Err(e) => Err(e)
        case Ok(d) => Ok(Some(d))
  }

  function CompilerOf(name: string): Option<Compiler> {
    if name == "solc" then Some(Solc) else if name == "vyper" then Some(VyperCompiler) else None
  }

  function LanguageOf(name: string): Option<Language> {
    if name == "solidity" then Some(Solidity)
    else if name == "yul" then Some(Yul)
    else if name == "vyper" then Some(VyperLanguage)
    else None
  }

  /** The match held by one side of a row, `None` when that side does not match. */
  function MatchOf(c: MatchColumns): Result<Option<Match>, Error> {
    if !c.doesMatch then Ok(None)
    else if c.metadataMatch.None? || c.transformations.None? || c.values.None? then Err(UnwrapOnNone)
    else Ok(Some(Match(c.metadataMatch.value, c.transformations.value, c.values.value)))
  }

  function MatchesOf(r: VerifiedRow): Result<Matches, Error> {
    match MatchOf(r.creation)
    case Err(e) => Err(e)
    case Ok(creation) =>
      match MatchOf(r.runtime)
      case Err(e) => Err(e)
      case Ok(runtime) =>
        match (creation, runtime)
        case (Some(c), Some(r)) => Ok(Complete(c, r))
        case (Some(c), None) => Ok(OnlyCreation(c))
        case (None, Some(r)) => Ok(OnlyRuntime(r))
        case (None, None) => Err(UnreachableNoMatch)
  }

  predicate Resolve(links: map<string, Bytes>, sources: map<Bytes, SourceRow>) {
    forall path :: path in links ==> links[path] in sources
  }

  function LinkedSources(links: map<string, Bytes>, sources: map<Bytes, SourceRow>): map<string, Bytes>
    requires Resolve(links, sources)
  {
    map path | path in links :: sources[links[path]].content
  }

  function RetrieveSources(db: Db, compilationId: nat): Result<map<string, Bytes>, Error> {
    var links := LinksOf(db.links, compilationId);
    if Resolve(links, db.sources) then Ok(LinkedSources(links, db.sources)) else Err(SourceNotFound)
  }

  function AssembleVerified(deploymentId: nat, row: CompiledRow, creationCode: Bytes, runtimeCode: Bytes,
                            sources: map<string, Bytes>, verified: VerifiedRow): Result<VerifiedContract, Error>
  {
    match CompilerOf(ToLower(row.compiler))
    case None => Err(UnknownCompiler)
    case Some(compiler) =>
      match LanguageOf(ToLower(row.language))
      case None => Err(UnknownLanguage)
      case Some(language) =>
        match MatchesOf(verified)
        case Err(e) => Err(e)
        case Ok(matches) =>
          Ok(VerifiedContract(deploymentId,
                              CompiledContract(compiler, row.version, language, row.name, row.fullyQualifiedName,
                                               sources, row.compilerSettings, row.compilationArtifacts,
                                               creationCode, row.creationCodeArtifacts,
                                               runtimeCode, row.runtimeCodeArtifacts),
                              matches))
  }

  function LoadVerified(db: Db, verified: VerifiedRow): Result<VerifiedContract, Error> {
    if verified.compilationId >= |db.compiled| then Err(CompiledContractNotFound)
    else
      var row := db.compiled[verified.compilationId];
      match RetrieveCode(db, row.creationCodeHash)
      case Err(e) => Err(e)
      case Ok(creation) =>
        if creation.code.None? then Err(NoCreationCode)
        else
          match RetrieveCode(db, row.runtimeCodeHash)
          case Err(e) => Err(e)
          case Ok(runtime) =>
            if runtime.code.None? then Err(NoRuntimeCode)
            else
              match RetrieveSources(db, verified.compilationId)
              case Err(e) => Err(e)
              case Ok(sources) =>
                AssembleVerified(verified.deploymentId, row, creation.code.value, runtime.code.value, sources,
                                 verified)
  }

  predicate AtAddress(r: DeploymentRow, chainId: int, address: Bytes) {
    r.chainId == chainId && r.address == address
  }

  /** The order in which deployments of one address are sorted. */
  predicate NotAfter(a: DeploymentRow, b: DeploymentRow) {
    a.blockNumber < b.blockNumber || (a.blockNumber == b.blockNumber && a.updatedAt <= b.updatedAt)
  }

  /** What popping the stably sorted deployments of an address yields: among those of the greatest block the one
      updated last, and the last row of these. */
  function Latest(t: seq<DeploymentRow>, chainId: int, address: Bytes): (r: Option<nat>)
    ensures r.Some? ==> r.value < |t| && t[r.value].chainId == chainId && t[r.value].address == address
    ensures r.Some? ==>
              forall i :: 0 <= i < |t| && t[i].chainId == chainId && t[i].address == address
                          ==> || t[i].blockNumber < t[r.value].blockNumber
                              || (t[i].blockNumber == t[r.value].blockNumber
                                  && (t[i].updatedAt < t[r.value].updatedAt
                                      || (t[i].updatedAt == t[r.value].updatedAt && i <= r.value)))
    ensures r.None? ==> forall i :: 0 <= i < |t| ==> t[i].chainId != chainId || t[i].address != address
  {
    if t == [] then None
    else
      var n := |t| - 1;
      var earlier := Latest(t[..n], chainId, address);
      if !AtAddress(t[n], chainId, address) then earlier
      else if earlier.None? || NotAfter(t[earlier.value], t[n]) then Some(n)
      else earlier
  }

  /** Every verified row of a deployment among the first `n`, loaded in order; the first failure ends it. */
  function CollectVerified(db: Db, deploymentId: nat, n: nat): Result<seq<VerifiedContract>, Error>
    requires n <= |db.verified|
  {
    if n == 0 then Ok([])
    else
      match CollectVerified(db, deploymentId, n - 1)
      case Err(e) => Err(e)
      case Ok(found) =>
        var row := db.verified[n - 1];
        if row.deploymentId != deploymentId then Ok(found)
        else
          match LoadVerified(db, row)
          case Err(e) => Err(e)
          case Ok(v) => Ok(found + [v])
  }

  function FindVerified(db: Db, chainId: int, address: Bytes): Result<seq<VerifiedContract>, Error> {
    match Latest(db.deployments, chainId, address)
    case None => Ok([])
    case Some(id) => CollectVerified(db, id, |db.verified|)
  }

  // ---- serial runs ----

  datatype Op =
    | Deploy(deployment: InsertContractDeployment, now: int)
    | Verify(contract: VerifiedContract)

  /** The migrated database: empty but for the sentinel row that stands for absent code. */
  const EMPTY: Db := Db(map[[] := CodeRow([], None)], [], [], [], map[], map[], [])

  function Apply(h: Hasher, db: Db, op: Op): Db {
    match op
    case Deploy(d, now) => InsertDeployment(h, db, d, now).0
    case Verify(v) => InsertVerified(h, db, v).0
  }

  function Run(h: Hasher, db: Db, ops: seq<Op>): Db {
    if ops == [] then db else Apply(h, Run(h, db, ops[..|ops| - 1]), ops[|ops| - 1])
  }
}

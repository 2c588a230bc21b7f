/** Public values of the verifier-alliance store, and the rows of its seven tables. */
module AllianceTypes {
  import opened Prelude

  datatype Digests = Digests(sha256: Bytes -> Bytes, keccak256: Bytes -> Bytes)

  ghost predicate Collision(h: Digests, a: Bytes, b: Bytes) {
    a != b && h.sha256(a) == h.sha256(b)
  }

  /** SHA-256 is taken to be collision free and never to yield the empty string.
      Nothing is assumed of Keccak-256. */
  ghost predicate Sound(h: Digests) {
    (forall b :: h.sha256(b) != []) && (forall a, b :: !Collision(h, a, b))
  }

  /** One such pair of digests: a tag in front of the content. */
  ghost function TagDigests(): (h: Digests)
    ensures Sound(h)
  {
    var h := Digests(b => [1] + b, b => b);
    assert forall a, b :: !Collision(h, a, b) by {
      forall a, b ensures !Collision(h, a, b) {
        assert a == h.sha256(a)[1..] && b == h.sha256(b)[1..];
      }
    }
    h
  }

  type Hasher = h: Digests | Sound(h) ghost witness TagDigests()

  lemma Injective(h: Hasher)
    ensures forall a, b :: h.sha256(a) == h.sha256(b) ==> a == b
  {
    forall a, b | h.sha256(a) == h.sha256(b) ensures a == b {
      assert !Collision(h, a, b);
    }
  }

  /** An artifact, kept as the text of its JSON. */
  type Json = string

  /** The largest value that fits the 96-bit mantissa of the decimal type. */
  const DECIMAL_MAX: nat := 0xffff_ffff_ffff_ffff_ffff_ffff

  // ---- values accepted and returned by the public functions ----

  datatype ContractCode =
    | OnlyRuntimeCode(code: Bytes)
    | CompleteCode(creationCode: Bytes, runtimeCode: Bytes)

  datatype InsertContractDeployment =
    | Genesis(chainId: int, address: Bytes, runtimeCode: Bytes)
    | Regular(chainId: int, address: Bytes, transactionHash: Bytes, blockNumber: nat,
              transactionIndex: nat, deployer: Bytes, regularCreationCode: Bytes, runtimeCode: Bytes)
  {
    function CreationCode(): Option<Bytes> {
      match this
      case Genesis(_, _, _) => None
      case Regular(_, _, _, _, _, _, code, _) => Some(code)
    }
  }

  datatype RetrieveContractDeployment = RetrieveContractDeployment(
    chainId: int, address: Bytes, transactionHash: Option<Bytes>, runtimeCode: Option<Bytes>)

  function RetrieveRegular(chainId: int, address: Bytes, transactionHash: Bytes): RetrieveContractDeployment {
    RetrieveContractDeployment(chainId, address, Some(transactionHash), None)
  }

  function RetrieveGenesis(chainId: int, address: Bytes, runtimeCode: Bytes): RetrieveContractDeployment {
    RetrieveContractDeployment(chainId, address, None, Some(runtimeCode))
  }

  datatype ContractDeployment = ContractDeployment(
    id: nat, chainId: int, address: Bytes, runtimeCode: Bytes, creationCode: Option<Bytes>, model: DeploymentRow)

  datatype Compiler = Solc | VyperCompiler

  datatype Language = Solidity | Yul | VyperLanguage

  datatype CompiledContract = CompiledContract(
    compiler: Compiler, version: string, language: Language, name: string, fullyQualifiedName: string,
    sources: map<string, Bytes>, compilerSettings: Json, compilationArtifacts: Json,
    creationCode: Bytes, creationCodeArtifacts: Json, runtimeCode: Bytes, runtimeCodeArtifacts: Json)

  datatype Match = Match(metadataMatch: bool, transformations: Json, values: Json)

  datatype Matches =
    | OnlyCreation(creationMatch: Match)
    | OnlyRuntime(runtimeMatch: Match)
    | Complete(creationMatch: Match, runtimeMatch: Match)

  datatype VerifiedContract = VerifiedContract(
    contractDeploymentId: nat, compiledContract: CompiledContract, matches: Matches)

  datatype Error =
    | DecimalOverflow          // the decimal conversion panics
    | NoTransactionHash        // neither a transaction hash nor a runtime code to derive it from
    | NotBetterThanExisting
    | ForeignKeyViolation
    | ContractNotFound
    | CodeNotFound
    | NoRuntimeCode
    | NoCreationCode
    | CompiledContractNotFound
    | SourceNotFound
    | UnknownCompiler
    | UnknownLanguage
    | UnwrapOnNone             // `unwrap` on a missing match column
    | UnreachableNoMatch       // the `unreachable!` for a row with no match at all

  // ---- rows ----

  datatype CodeRow = CodeRow(keccak: Bytes, code: Option<Bytes>)

  datatype ContractRow = ContractRow(creationCodeHash: Bytes, runtimeCodeHash: Bytes)

  datatype DeploymentRow = DeploymentRow(
    chainId: int, address: Bytes, transactionHash: Bytes, blockNumber: int, transactionIndex: int,
    deployer: Bytes, contractId: nat, updatedAt: int)

  datatype CompiledRow = CompiledRow(
    compiler: string, version: string, language: string, name: string, fullyQualifiedName: string,
    compilerSettings: Json, compilationArtifacts: Json, creationCodeHash: Bytes, creationCodeArtifacts: Json,
    runtimeCodeHash: Bytes, runtimeCodeArtifacts: Json)

  datatype SourceRow = SourceRow(keccak: Bytes, content: Bytes)

  /** One side of a `verified_contracts` row. */
  datatype MatchColumns = MatchColumns(
    doesMatch: bool, metadataMatch: Option<bool>, values: Option<Json>, transformations: Option<Json>)

  datatype VerifiedRow = VerifiedRow(
    deploymentId: nat, compilationId: nat, creation: MatchColumns, runtime: MatchColumns)

  /** The seven tables. Tables with a generated id are sequences, the id being the position;
      tables reached by hash or by their unique columns are maps from those columns. The links of a
      compilation, unique by (compilation, path), map its paths to source hashes. */
  datatype Db = Db(
    code: map<Bytes, CodeRow>,
    contracts: seq<ContractRow>,
    deployments: seq<DeploymentRow>,
    compiled: seq<CompiledRow>,
    sources: map<Bytes, SourceRow>,
    links: map<nat, map<string, Bytes>>,
    verified: seq<VerifiedRow>)

  // ---- unique columns ----

  function ContractKey(r: ContractRow): (Bytes, Bytes) {
    (r.creationCodeHash, r.runtimeCodeHash)
  }

  function DeploymentKey(r: DeploymentRow): (int, Bytes, Bytes) {
    (r.chainId, r.address, r.transactionHash)
  }

  function CompiledKey(r: CompiledRow): (string, string, Bytes, Bytes) {
    (r.compiler, r.language, r.creationCodeHash, r.runtimeCodeHash)
  }

  function VerifiedKey(r: VerifiedRow): (nat, nat) {
    (r.compilationId, r.deploymentId)
  }
}

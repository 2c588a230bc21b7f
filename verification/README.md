# Verification of four components of blockscout-rs

Dafny models of the parts of the repository whose correctness is not visible from any one function, with proofs about
them. `dafny verify dfyconfig.toml` checks everything.

**Verifier-alliance store** (`Alliance*.dfy`). Seven tables written through get-or-insert by two transactions and read by
two lookups. `AllianceStore` gives the transactions as functions on tables, `AllianceDatabase` the object whose methods
write them, `AllianceInvariant` what every step keeps, `AllianceTheorems` what callers can rely on over every serial run
that starts from the migrated database, which holds one sentinel row for absent code. SHA-256 is taken to be free of
collisions and never empty; nothing is assumed of Keccak-256. Ids are positions.

**Env collector** (`Env*.dfy`). `EnvSort` is the printed order of documented variables, `EnvTable` the Markdown table and
the scanner for its row pattern, `EnvFormat` the reading of tables formatted otherwise, `EnvUpdate` the merge of a
configuration into a table and the variables it lacks, `EnvFlatten` the names that the leaves of a configuration get and
the way back to their paths, `EnvExample` the variables that document a configuration.

**Metadata decoder** (`CborItem.dfy`, `Metadata.dfy`). `CborItem` has heads, items and skipping as sections 3.1 and 3.2 of
RFC 8949 define them, with proofs that reading and writing are inverse; `Metadata` has the cursor and the decoding loop.
Validity of UTF-8 and the parsing of semantic versions are parameters.

**Work queues** (`WorkQueue.dfy`, `PageIterator.dfy`, `AddressImport.dfy`, `Indexer*.dfy`). `WorkQueue` is a transition
system of any number of workers over one table, shared by the two extractors; `PageIterator` and `AddressImport` are the
listing and the import of addresses; `Indexer` is the job pool of the data availability indexer, `IndexerOrder` the order
in which it hands them out and what can become of one.

## Findings

- On a conflict `insert_contract_deployment` returns the codes that were submitted, not those stored under the key;
  `InsertEchoesFind` says exactly when the two agree.
- A better match for a pair of compilation and deployment that already has a row passes the gate and is reported as
  stored, but is not written (`BetterMatchExample`; `AcceptedRow` says exactly when a match is written).
- Field names with a double underscore can make two leaves share a variable, and one is lost (`LostLeaf`;
  `FlattenKeepsAllIff` says exactly when none is).
- `from_key_to_json_path` strips the prefix as often as it occurs, so a section named like the service is not found
  (`PrefixStrippedTwice`; `PathRecoveredIff` says exactly when the path is recovered).
- A failed request makes the page iterator lose the page it held, and the calls after it report the end (`PageLost`;
  `NthCall` says what every call answers).
- A comment in the decoder says that duplicate keys are not allowed (section 5.6 of RFC 8949); the code refuses only a
  repeated `solc`, other repeated keys are skipped (`RepeatedOtherKeyDecodes`; `MapDecodesIff` says exactly which maps
  are decoded).

## Model

| member | source | states |
|---|---|---|
| `AllianceTables.InsertThenSelect` | eth-bytecode-db/verifier-alliance-database/src/helpers.rs:22-91 | the loop looks for the first row with the same unique columns, writes only if there is none, and reports whether it wrote |
| `AllianceTables.InsertSerialTwice` | eth-bytecode-db/verifier-alliance-database/src/helpers.rs:57-88 | a second insert under the same unique columns, whatever its other columns, returns the row of the first and changes nothing |
| `AllianceTables.InsertSerialUnique` | eth-bytecode-db/verifier-alliance-database/src/helpers.rs:37-40 | get-or-insert keeps the unique columns unique |
| `AllianceDatabase.Database.InsertContractDeployment` | eth-bytecode-db/verifier-alliance-database/src/lib.rs:23-54 | the writes to `code`, `contracts` and `contract_deployments` end in the state and result of the specification, including the unchanged state when a number does not fit the decimal type |
| `AllianceDatabase.Database.ShouldStoreTheMatch` | eth-bytecode-db/verifier-alliance-database/src/internal.rs:582-626 | the loop lets a candidate pass iff one of its submitted sides matches the metadata, or every row of the deployment has `false` in the match flag of a side that the candidate matches |
| `AllianceInvariant.PassesIff` | eth-bytecode-db/verifier-alliance-database/src/internal.rs:582-626 | the comparison of status pairs comes to that condition on the submitted flags and the stored columns, for every table |
| `AllianceDatabase.Database.WriteSources` | eth-bytecode-db/verifier-alliance-database/src/internal.rs:166-195 | the loop over paths leaves one row per distinct content, and rows already there unchanged |
| `AllianceDatabase.Database.WriteLinks` | eth-bytecode-db/verifier-alliance-database/src/internal.rs:197-226 | the loop over hashes links each new path and keeps the link of a path already linked |
| `AllianceDatabase.PrecalculateSourceHashes` | eth-bytecode-db/verifier-alliance-database/src/internal.rs:469-477 | every path gets the hash of its content, and no other path |
| `AllianceDatabase.Database.WriteContract` | eth-bytecode-db/verifier-alliance-database/src/internal.rs:321-351 | the contract row points at the codes just written, the creation hash being empty for a contract without creation code |
| `AllianceDatabase.Database.WriteCompiled` | eth-bytecode-db/verifier-alliance-database/src/internal.rs:111-164 | both codes are written before the compilation that points at them |
| `AllianceDatabase.Database.InsertVerifiedContract` | eth-bytecode-db/verifier-alliance-database/src/lib.rs:56-104 | the whole transaction: gate, four groups of inserts, foreign key; an error leaves all seven tables as they were |
| `AllianceDatabase.Database.RetrieveSourcesByCompilationId` | eth-bytecode-db/verifier-alliance-database/src/internal.rs:439-467 | the links of a compilation are followed to their contents; a missing content is an error |
| `AllianceDatabase.Database.FindContractDeployment` | eth-bytecode-db/verifier-alliance-database/src/lib.rs:106-145 | the deployment of a key is looked up, then its contract and both codes; a missing row, or a missing runtime code, is an error |
| `AllianceDatabase.Database.FindVerifiedContracts` | eth-bytecode-db/verifier-alliance-database/src/lib.rs:147-233 | every verified row of the latest deployment of an address is loaded in order, and the first failure ends the lookup; an address without deployment has none |
| `AllianceStore.Latest` | eth-bytecode-db/verifier-alliance-database/src/lib.rs:156-166 | the deployment popped from the sorted list has, among those of the chain and address, the greatest block number, then the greatest update time, then the last position; there is none iff no row has that chain and address |
| `AllianceTheorems.FindVerifiedIs` | eth-bytecode-db/verifier-alliance-database/src/lib.rs:147-233 | for every database: the answer consists, in order and once each, of the contracts of exactly the rows whose deployment is the one of greatest block number, then update time, among those of the address; a row that fails to load ends it with its error |
| `AllianceTheorems.NothingAtAddress` | eth-bytecode-db/verifier-alliance-database/src/lib.rs:163-166 | an address without deployment gets the empty answer, whatever the other tables hold |
| `AllianceTheorems.FindDeploymentIs` | eth-bytecode-db/verifier-alliance-database/src/lib.rs:106-145 | the answer is the one row with the chain, the address and the transaction hash asked for, or nothing if there is none; without a transaction hash the hash of the runtime code is asked for; the codes shown have the hashes of the contract, the empty hash meaning none |
| `AllianceInvariant.InsertDeploymentStep` | eth-bytecode-db/verifier-alliance-database/src/lib.rs:32-44 | inserting a deployment keeps the invariant of all seven tables and changes no existing row |
| `AllianceInvariant.InsertVerifiedStep` | eth-bytecode-db/verifier-alliance-database/src/lib.rs:60-103 | inserting a verified contract keeps the invariant of all seven tables and changes no existing row |
| `AllianceInvariant.RunStep` | eth-bytecode-db/verifier-alliance-database/src/lib.rs:23-104 | over every serial run ids and hashes resolve, hash-keyed rows hold content with that hash, unique columns stay unique, and rows are never removed, moved or changed |
| `AllianceInvariant.RowStatusesOf` | eth-bytecode-db/verifier-alliance-database/src/internal.rs:53-95 | all three shapes of matches survive the encoding into flags and optional columns, and keep their status pair |
| `AllianceTheorems.FindsNeverFail` | eth-bytecode-db/verifier-alliance-database/src/lib.rs:106-233 | after any run neither find reaches a missing row, a missing code, an `unwrap` on a missing column or the branch declared unreachable; the only failing query has neither transaction hash nor runtime code |
| `AllianceTheorems.FirstDeploymentStays` | eth-bytecode-db/verifier-alliance-database/src/lib.rs:23-145 | once a deployment key is inserted, its find returns that first id, runtime code, creation code (none for genesis) and row after any later run |
| `AllianceTheorems.DeploymentStoredIff` | eth-bytecode-db/verifier-alliance-database/src/internal.rs:672-704 | a deployment is stored iff it is genesis or both its numbers are below 2 to the power of 96; otherwise the tables stay as they were |
| `AllianceTheorems.InsertEchoesFind` | eth-bytecode-db/verifier-alliance-database/src/lib.rs:27-53 | the result of an insert equals what a find returns iff the key was new or already held the submitted codes |
| `AllianceTheorems.InsertEchoExample` | eth-bytecode-db/verifier-alliance-database/src/lib.rs:46-53 | two deployments under one key with different runtime code: the second insert reports code that the store does not hold |
| `AllianceTheorems.GateOverRuns` | eth-bytecode-db/verifier-alliance-database/src/internal.rs:551-627 | over every run a row without metadata match on either side matches on a side on which an earlier row of its deployment does not, so it is never componentwise at most that row |
| `AllianceTheorems.AtMostThreePlainRows` | eth-bytecode-db/verifier-alliance-database/src/internal.rs:551-627 | a deployment never holds more than three rows whose metadata columns are both other than true |
| `AllianceTheorems.AcceptedIff` | eth-bytecode-db/verifier-alliance-database/src/lib.rs:60-103 | a contract is accepted iff it passes the gate, as stated on flags and columns, and its deployment exists; the gate is asked first, and a refusal leaves the tables as they were |
| `AllianceTheorems.AcceptedRow` | eth-bytecode-db/verifier-alliance-database/src/internal.rs:97-108 | an accepted match adds one row iff, in the tables before the call, its compilation is absent or has no row for the deployment; otherwise the row there was stays |
| `AllianceTheorems.PairKnownColumns` | eth-bytecode-db/verifier-alliance-database/src/internal.rs:97-108 | the pair of compilation and deployment is known iff some row is of the deployment and its compilation has the compiler, language and code hashes submitted |
| `AllianceTheorems.BetterMatchDropped` | eth-bytecode-db/verifier-alliance-database/src/internal.rs:97-108 | after an accepted contract, the same contract with any metadata match is accepted and leaves `verified_contracts` as it was |
| `AllianceTheorems.BetterMatchExample` | eth-bytecode-db/verifier-alliance-database/src/internal.rs:600-607 | a deployment, a match without metadata and then a better one with metadata: both are accepted, and only the first is in the table |
| `AllianceTheorems.RetrievedSourcesAreMerged` | eth-bytecode-db/verifier-alliance-database/src/internal.rs:166-226 | for every compilation and run the retrieved sources are the merge, in order, of all source maps accepted for its key, the first content of a path winning |
| `AllianceTheorems.VerifiedRoundTrip` | eth-bytecode-db/verifier-alliance-database/src/lib.rs:147-233 | for a new pair of compilation and latest deployment the find returns its earlier list followed by the inserted contract, which is equal in every field if its compilation is new |
| `AllianceTheorems.KnownCompilationStored` | eth-bytecode-db/verifier-alliance-database/src/lib.rs:78-92 | for a known compilation that entry has the version, name, settings and artifacts of the first row, the submitted compiler, language, codes and matches, and the merge of all accepted sources |
| `AllianceTheorems.VerifiedStays` | eth-bytecode-db/verifier-alliance-database/src/lib.rs:147-233 | after any further run a verified row is still there under its number and loads as the same contract but for its sources, which only grow and are the merge of all accepted by then |
| `AllianceTheorems.DeployTwice` | eth-bytecode-db/verifier-alliance-database/src/lib.rs:23-54 | submitting a deployment again, at a later time, leaves all tables as after the first submission |
| `AllianceTheorems.VerifyTwice` | eth-bytecode-db/verifier-alliance-database/src/lib.rs:56-104 | submitting a verified contract again leaves all tables as after the first submission |
| `AllianceTheorems.SubmitTwice` | eth-bytecode-db/verifier-alliance-database/src/lib.rs:23-104 | over every run, submitting twice in a row is submitting once, whether accepted, absorbed or rejected |
| `EnvSort.FillSlots` | libs/env-collector/src/lib.rs:278-289 | the slot-filling loop, which takes indexed, unindexed and left-over entries, yields the specified interleaving; no remaining index is below the position reached |
| `EnvSort.SortedWithRequired` | libs/env-collector/src/lib.rs:268-291 | the variables in printed order |
| `EnvSort.LessIff` | libs/env-collector/src/lib.rs:270-277 | ids are ordered as in a dictionary: a proper prefix first, otherwise by the first difference |
| `EnvSort.IndexedPosition` | libs/env-collector/src/lib.rs:266-291 | for all variables: one with index k stands at min(k, smaller indices in use + unindexed variables); of several that share k it is the one with the last id |
| `EnvSort.UnindexedOrder` | libs/env-collector/src/lib.rs:266-291 | variables without index appear required first, then by id |
| `EnvSort.PermutationIffDistinct` | libs/env-collector/src/lib.rs:268-291 | there are as many printed variables as indices in use and unindexed variables together, so every variable is printed iff no two share an index |
| `EnvSort.SortedIdsOnce` | libs/env-collector/src/lib.rs:268-291 | with distinct indices every id appears at exactly one position |
| `EnvTable.SerializeToTable` | libs/env-collector/src/lib.rs:422-453 | the printed table is the header, its text written out, followed by one row per variable in printed order |
| `EnvTable.AppendRows` | libs/env-collector/src/lib.rs:432-448 | the printing loop appends the rows in order |
| `EnvTable.RowAt` | libs/env-collector/src/lib.rs:464-472 | the row pattern matches a printed row whole and captures its four cells |
| `EnvTable.ScanTable` | libs/env-collector/src/lib.rs:464-472 | the pattern finds the printed rows, each once and in order, and nothing in the header |
| `EnvTable.FromMarkdownClean` | libs/env-collector/src/lib.rs:213-258 | whatever the text, the variables read from it can be printed and read again, with distinct indices |
| `EnvTable.RoundTrip` | libs/env-collector/src/lib.rs:213-258 | printing and reading back gives the same variables with the printed position as index |
| `EnvFormat.FormattedRead` | libs/env-collector/src/lib.rs:213-258 | a table of rows with any Unicode white space around their cells, after any header without backticks: its ids are the ASCII parts of the keys, and each stands for the last row with it, required iff its cell reads `true`, without default iff that cell is empty, indexed by the position of the row |
| `EnvFormat.WhiteSpaceIs` | libs/env-collector/src/lib.rs:464-472 | white space, in the pattern and in trimming, is the 25 characters of the Unicode property |
| `EnvFormat.AsciiPart` | libs/env-collector/src/lib.rs:145-147 | the ASCII part of a key keeps, in order, exactly the characters below 128 |
| `EnvUpdate.RoundTripIff` | libs/env-collector/src/lib.rs:422-453 | for all variables, printing and reading back gives the same ones up to their index iff their cells are clean and no two share an index |
| `EnvUpdate.MergeClean` | libs/env-collector/src/lib.rs:225-264 | whatever the text, merging variables without index never makes two share one, and what it yields is clean iff the variables it adds are |
| `EnvUpdate.UpdatePrintsAll` | libs/env-collector/src/lib.rs:345-358 | whatever the text and the texts of the configuration, an update prints every documented and every new variable |
| `EnvUpdate.UpdateNoOverrideLoop` | libs/env-collector/src/lib.rs:260-264 | the merge loop keeps every documented variable and adds the others |
| `EnvUpdate.PrintReadPrint` | libs/env-collector/src/lib.rs:422-453 | a table read back prints as the identical string |
| `EnvUpdate.UpdateIsIdempotent` | libs/env-collector/src/lib.rs:345-358 | updating a table, from any text, a second time from the same configuration yields the identical table |
| `EnvUpdate.MissingIff` | libs/env-collector/src/lib.rs:318-330 | for any text and any configuration under ASCII keys a variable is reported missing iff the configuration has it and the table either has nothing under its id or flags it otherwise |
| `EnvUpdate.MissingAfterUpdate` | libs/env-collector/src/lib.rs:312-330 | after an update the variables still missing are exactly those documented before with the opposite `required` flag |
| `EnvFlatten.FlatJson` | libs/env-collector/src/lib.rs:490-508 | the recursive walk inserts one variable per leaf, in order, under the upper-case name of its path; an array makes it fail |
| `EnvFlatten.FlattenJson` | libs/env-collector/src/lib.rs:474-478 | flattening starts from no variables |
| `EnvFlatten.EnvNameInjective` | libs/env-collector/src/lib.rs:494-503 | under good field names, which are in ASCII, two paths never share a variable name, whatever the prefix and the case mapping outside ASCII |
| `EnvFlatten.FlattenKeepsAllIff` | libs/env-collector/src/lib.rs:474-508 | for every JSON value and case mapping: flattening fails iff some leaf is an array; otherwise the variables are named after the leaves, each holds the text of the last leaf of its name, and there are as many as leaves iff no two leaves share a name |
| `EnvFlatten.NoLeafLost` | libs/env-collector/src/lib.rs:474-508 | with good field names no two leaves share a name, so that flattening fails iff there is an array and otherwise has exactly one variable per leaf, holding its text |
| `EnvExample.LeafIff` | libs/env-collector/src/lib.rs:490-508 | the leaves are exactly the values found by following a path of field names that are not objects |
| `EnvExample.ValuesKept` | libs/env-collector/src/lib.rs:474-508 | with good field names flattening fails iff some path leads to an array; otherwise the value at every path has its text (`null`, `true`, `false`, the number or the string) in the variable of that path, and there is no other variable |
| `EnvFlatten.LostLeaf` | libs/env-collector/src/lib.rs:494-498 | a field name with a double underscore: two leaves end in one variable |
| `EnvFlatten.PathRecoveredIff` | libs/env-collector/src/lib.rs:415-420 | the generated name leads back to its dotted path iff the upper-case path does not itself begin with the prefix and a separator |
| `EnvFlatten.DotsReplaces` | libs/env-collector/src/lib.rs:415-420 | every separator, also at either end and next to another, becomes one dot, and nothing else changes |
| `EnvFlatten.BeginsWithPrefixIff` | libs/env-collector/src/lib.rs:415-420 | for a prefix that is a name, that is the case iff the path has two names or more and the first is the prefix |
| `EnvFlatten.PrefixStrippedTwice` | libs/env-collector/src/lib.rs:415-420 | the name generated with prefix `A` for the field `x` of section `a` leads back to another path, since the prefix is stripped repeatedly |
| `EnvExample.ExampleIsConfig` | libs/env-collector/src/lib.rs:185-207 | variables built from a configuration without pipes in its texts meet the conditions of the update theorems |
| `EnvExample.ExampleTells` | libs/env-collector/src/lib.rs:171-211 | from a configuration to its documentation: the value at every path whose variable passes the filter is documented under the name of the path, required iff the setting at that same path has no default, with the default in backticks and the value as example unless it is empty or the default |
| `EnvExample.ExampleOnly` | libs/env-collector/src/lib.rs:171-211 | nothing else is documented: every variable passes the filter and is named after the path of a value |
| `CborItem.HeadRead` | libs/solidity-metadata/src/lib.rs:46 | a written head is read back with its argument, in any of the five widths |
| `CborItem.HeadWritten` | libs/solidity-metadata/src/lib.rs:46 | whatever is read as a head is one of the written forms |
| `CborItem.HeadLayout` | libs/solidity-metadata/src/lib.rs:46 | heads byte for byte as section 3 of RFC 8949 draws them: major type, argument in the low bits or in the next one, two, four or eight bytes, reserved values, indefinite length |
| `CborItem.ItemSkipped` | libs/solidity-metadata/src/lib.rs:95 | a well-formed item, nested and of known or open length, is skipped whole whatever follows |
| `CborItem.SkipIff` | libs/solidity-metadata/src/lib.rs:95 | skipping leaves exactly the bytes after an item iff the input starts with a well-formed item |
| `Metadata.SolcDecoded` | libs/solidity-metadata/src/lib.rs:57-91 | the value of `solc` is a version of three bytes or a version text; any other well-formed item is an invalid type |
| `Metadata.Decoder.MapHead` | libs/solidity-metadata/src/lib.rs:46 | the number of entries declared, and the cursor after the head |
| `Metadata.Decoder.ReadStr` | libs/solidity-metadata/src/lib.rs:51 | a string of known length, and the cursor after it |
| `Metadata.Decoder.ReadEntry` | libs/solidity-metadata/src/lib.rs:50-98 | one turn of the loop: key, duplicate check, value or skip, and the cursor after it |
| `Metadata.Decoder.ReadEntries` | libs/solidity-metadata/src/lib.rs:48-99 | the loop over the declared number of entries |
| `Metadata.DecodeMetadata` | libs/solidity-metadata/src/lib.rs:16-21 | version and used size, or the error, as specified |
| `Metadata.Decoded` | libs/solidity-metadata/src/lib.rs:39-107 | decoding a well-formed map of known length followed by anything gives what its entries say, and exactly the length of the encoding |
| `Metadata.DecodedIff` | libs/solidity-metadata/src/lib.rs:39-107 | decoding yields a version and size iff that many bytes are a well-formed map of known length whose entries say so |
| `Metadata.OnlySolcCounts` | libs/solidity-metadata/src/lib.rs:52-96 | the only `solc` entry decides the result; with a second one the map is refused |
| `Metadata.SolcEntryDecoded` | libs/solidity-metadata/src/lib.rs:50-98 | a map with one entry for the key of bytes 73 6f 6c 63, whatever stands around it and after the map: three bytes are major, minor and patch in this order, a text is parsed, any other length or type is the error for it; the size is that of the map |
| `Metadata.ReleaseBytes` | libs/solidity-metadata/src/lib.rs:59-74 | the map a1 64 73 6f 6c 63 43 a b c before any tail is version a.b.c, ten bytes used |
| `Metadata.PrereleaseBytes` | libs/solidity-metadata/src/lib.rs:75-84 | the same map with a version text of up to 23 bytes is the version parsed from it, and the size is seven more than the text |
| `Metadata.MapDecodesIff` | libs/solidity-metadata/src/lib.rs:49-98 | a well-formed map, whatever follows it, is decoded iff every `solc` entry holds a version and there is at most one |
| `Metadata.OtherKeysDecode` | libs/solidity-metadata/src/lib.rs:93-96 | a map without `solc` decodes whatever its keys and however often they are repeated |
| `Metadata.RepeatedOtherKeyDecodes` | libs/solidity-metadata/src/lib.rs:93-96 | a map with the key `x` twice is decoded |
| `Metadata.RepeatedSolcRejected` | libs/solidity-metadata/src/lib.rs:53-56 | a map with two `solc` keys is never decoded, whatever their values and what follows |
| `Metadata.TooFewEntries` | libs/solidity-metadata/src/lib.rs:49 | a map that declares more entries than are present is never decoded |
| `Metadata.EntriesConsume` | libs/solidity-metadata/src/lib.rs:49-99 | every turn of the loop consumes two bytes or more |
| `Metadata.IndefiniteNeverDecoded` | libs/solidity-metadata/src/lib.rs:46-49 | a map of indefinite length is never decoded |
| `WorkQueue.StepSafe` | eth-bytecode-db-extractors/smart-contract-fiesta/src/verification.rs:191-205 | every step of every worker keeps the safety invariant |
| `WorkQueue.AlwaysSafe` | eth-bytecode-db-extractors/smart-contract-fiesta/src/verification.rs:288-311 | over every interleaving no two workers hold an address, a held row is in process, and a row is claimed at most once and only if it was waiting |
| `WorkQueue.OutcomeIsFinal` | eth-bytecode-db-extractors/smart-contract-fiesta/src/verification.rs:384-406 | success and error are final: no continuation of a run changes them |
| `WorkQueue.OutcomeRecorded` | eth-bytecode-db-extractors/smart-contract-fiesta/src/verification.rs:167-205 | in every run a claimed row is a success iff its processing verified it, an error iff it did not, and in process until it is finished |
| `WorkQueue.AllRowsProcessed` | eth-bytecode-db-extractors/blockscout/src/client.rs:158-185 | when all workers return normally each waiting row was claimed exactly once and has an outcome, other rows are unchanged, and the counts add up to the rows that were waiting |
| `WorkQueue.ResetThenComplete` | eth-bytecode-db-extractors/smart-contract-fiesta/src/verification.rs:253-269 | after a reset and a run whose workers all return normally, whatever was left before: every row that was waiting or in process is claimed exactly once and has the outcome its processing found, rows with an outcome keep it unclaimed, and the counts add up |
| `WorkQueue.StepDecreases` | eth-bytecode-db-extractors/blockscout/src/client.rs:160-182 | every step decreases a measure built on the number of waiting rows |
| `WorkQueue.RunsAreBounded` | eth-bytecode-db-extractors/blockscout/src/client.rs:160-182 | no run is longer than five steps per waiting row and two per worker |
| `WorkQueue.CanFinish` | eth-bytecode-db-extractors/blockscout/src/client.rs:158-185 | from every reachable state without a failed worker, and however the processing of the remaining rows turns out, the run extends to one in which all workers are done and every row is processed |
| `WorkQueue.AsOneWorker` | eth-bytecode-db-extractors/blockscout/src/client.rs:158-185 | a run of any number of workers that all return normally leaves the table one worker alone leaves when the processing of each row turns out the same |
| `WorkQueue.EveryOutcome` | eth-bytecode-db-extractors/blockscout/src/client.rs:158-185 | whatever the outcomes of processing, some run of the workers ends with exactly the table of these outcomes |
| `WorkQueue.Client.ResetDatabase` | eth-bytecode-db-extractors/smart-contract-fiesta/src/verification.rs:256-269 | rows in process go back to waiting, and every other row is unchanged |
| `WorkQueue.Client.NextContract` | eth-bytecode-db-extractors/blockscout/src/client.rs:380-432 | claims one waiting row, or finds that none is waiting |
| `WorkQueue.Client.VerifyContracts` | eth-bytecode-db-extractors/blockscout/src/client.rs:158-185 | one worker alone gives every waiting row its outcome and counts them |
| `PageIterator.VerifiedContractsIterator.NextPage` | eth-bytecode-db-extractors/blockscout/src/blockscout.rs:182-202 | hands out the stored page after loading the next; when loading fails the stored page is gone |
| `PageIterator.NewIterator` | eth-bytecode-db-extractors/blockscout/src/blockscout.rs:162-178 | the first page is loaded on creation; a failed request fails the creation |
| `PageIterator.CallsStore` | eth-bytecode-db-extractors/blockscout/src/blockscout.rs:154-159 | before its k-th call the iterator stores page k and its cursor, or nothing for ever |
| `PageIterator.NthCall` | eth-bytecode-db-extractors/blockscout/src/blockscout.rs:182-202 | the k-th call answers with the k-th page of the chain up to the first empty page or the page without cursor, and with the end after that |
| `PageIterator.EndForEver` | eth-bytecode-db-extractors/blockscout/src/blockscout.rs:182-202 | after the end, or after a failed request, every call answers with the end |
| `PageIterator.PageLost` | eth-bytecode-db-extractors/blockscout/src/blockscout.rs:187-199 | a server whose second request fails: the first call reports it, every other call the end, and the page that was loaded is never handed out |
| `AddressImport.Importer.ImportPage` | eth-bytecode-db-extractors/blockscout/src/client.rs:112-152 | one page is inserted where absent; it tells to stop iff nothing was inserted and the import is not forced |
| `AddressImport.Importer.ImportContractAddresses` | eth-bytecode-db-extractors/blockscout/src/client.rs:91-156 | the import loop over the iterator, for any server and any number of turns: the table, and the count or error once it has ended |
| `AddressImport.TurnsSuffice` | eth-bytecode-db-extractors/blockscout/src/client.rs:99-155 | for a listing that ends, enough turns end the import with the outcome of importing its pages |
| `AddressImport.RowsKeptAtEveryTurn` | eth-bytecode-db-extractors/blockscout/src/client.rs:132-152 | at no turn, of any listing, has an existing row been changed |
| `AddressImport.ExistingRowsKept` | eth-bytecode-db-extractors/blockscout/src/client.rs:132-152 | no import, forced or not, stopped or failed, changes an existing row |
| `AddressImport.EarlyStopIff` | eth-bytecode-db-extractors/blockscout/src/client.rs:136-144 | the early stop ends with the table of a forced import iff the pages from the first one that adds nothing on list only addresses known by then |
| `AddressImport.NewFirstSuffices` | eth-bytecode-db-extractors/blockscout/src/client.rs:136-144 | that is so when new contracts are listed first, each once, and all that follows is in the table |
| `AddressImport.ListingNewFirst` | eth-bytecode-db-extractors/blockscout/src/client.rs:91-156 | the same for the pages a listing hands out |
| `AddressImport.EarlyStopMisses` | eth-bytecode-db-extractors/blockscout/src/client.rs:136-144 | a known contract listed on an earlier page than a new one: the early stop misses the new one |
| `AddressImport.ForcedImportsAll` | eth-bytecode-db-extractors/blockscout/src/client.rs:112-135 | a forced import of pages in the languages `solidity`, `yul` and `vyper` adds exactly the listed addresses, a new one waiting and with the data and the language of the item that listed it first, changes no other row, and returns the number of items listed or the failed request |
| `AddressImport.ReadableIff` | eth-bytecode-db-extractors/blockscout/src/client.rs:112-130 | a page is accepted iff every language on it is one of those three |
| `Indexer.StepInv` | da-indexer/da-indexer-logic/src/indexer.rs:56-137 | each fetch, drain, hand-out and attempt keeps the invariant of the pool |
| `Indexer.AlwaysAccounted` | da-indexer/da-indexer-logic/src/indexer.rs:56-137 | over every run each fetched job is handed out or waits for it; per job the hand-outs are its completions, flights and parkings together; a job is put aside after exactly three failures in one pass and is then handed out again or still waits for it; a positive limit is respected |
| `IndexerOrder.HandedInOrder` | da-indexer/da-indexer-logic/src/indexer.rs:91-137 | over every run each of the three sources hands out its jobs in the order in which its batches brought them, none left out and none twice |
| `IndexerOrder.PolledFirst` | da-indexer/da-indexer-logic/src/indexer.rs:56-72 | over every run a job of another source is handed out only when no polled job waits, and any job only below a positive limit |
| `IndexerOrder.CatchUpEnds` | da-indexer/da-indexer-logic/src/indexer.rs:91-105 | catching up ends with its first empty batch and with nothing else |
| `Indexer.CanSettle` | da-indexer/da-indexer-logic/src/indexer.rs:74-137 | from every such state there is a continuation without new jobs in which every job fetched so far is completed |
| `IndexerOrder.CanServe` | da-indexer/da-indexer-logic/src/indexer.rs:107-119 | whenever its jobs are handed out another batch can be polled, and a continuation completes its jobs and all others |
| `IndexerOrder.CanFail` | da-indexer/da-indexer-logic/src/indexer.rs:74-89 | three failed attempts of a fresh flight put its job aside with three failures, and change nothing else |
| `Indexer.Pool.ProcessJobWithRetries` | da-indexer/da-indexer-logic/src/indexer.rs:74-89 | attempts stop at the first success and after three at most, with delays of 5 and 20 between them; the job is put aside iff the last of three fails |
| `Indexer.Pool.DrainFailedJobs` | da-indexer/da-indexer-logic/src/indexer.rs:121-137 | draining empties the set into a batch with each job once |

## Left out

- Concurrent transactions in the verifier-alliance store: the gate reads before it writes, so its bound holds for serial
  transactions only.
- SQL checks on the JSON columns, owners, and timestamps other than the update time of deployments. Artifacts are kept
  as text, so parsing after serialising is the identity by construction.
- Update on conflict in `helpers.rs`: no caller of the store asks for it.
- Row order where the database gives none: rows are read in the order of insertion.
- Panics of the decimal conversion and of `expect` are modelled as errors that leave the tables unchanged.
- Unicode case mapping is a parameter of `EnvFlatten`: it is known on ASCII, and upper case is taken character by
  character.
- `markdown_table_formatter`, anchors, file access, the prefix filter (a parameter) and the defaults of settings (a
  parameter).
- Minicbor beyond the two sections named: all its own errors are one error, a truncated negative number as value of
  `solc` counts as an invalid type, and simple values in two bytes are skipped whatever their value.
- EnvFlatten.FlatJson: numbers are given by their text.
- Workers that end with an error keep the safety invariant; completion is claimed only when all return normally. The
  statement that finds no row to claim is one step, taken when every waiting row is locked.
- Tables that hold one address on several chains.
- What a worker does between claim and outcome: requests, details and logs.
- The import loop is observed for a given number of turns, since a server whose cursors never end keeps the original in
  its loop.
- Delays, intervals and fairness in the job pool, its restart, and what a job is.
- HTTP clients and servers, settings, metrics, health checks, and every other crate of the repository.

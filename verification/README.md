# Verified model of the self-healing reserve

A Dafny model of the parts of the repository whose correctness depends on more than one function,
with proofs of what they promise. `dafny verify dfyconfig.toml` checks the whole project.

| files | what they model |
|---|---|
| `Settlement.dfy`, `SettlementTies.dfy`, `SettlementRounds.dfy`, `Sorting.dfy` | the confidential settlement engine: greedy matching, equally liquid makers, the balance update, runs of rounds, the verdict |
| `RollingHash.dfy`, `Hex.dfy`, `Codec.dfy`, `Utf8Laws.dfy` | the 32-bit table hash, hexadecimal text, the simulated enclave encryption, digests and bundle file names |
| `StructTable.dfy`, `CanonicalTypes.dfy`, `GoTypes.dfy`, `NormalizeArgs.dfy`, `ContractBinding.dfy`, `BindV2.dfy`, `Sanitizing.dfy`, `StructNames.dfy`, `Naming.dfy` | the generator of Go bindings: the shared struct table, type expressions, argument names, contract binding, the names that are printed |
| `Registry.dfy`, `RegistryLimits.dfy`, `RegistryInterleaving.dfy` | the paging loops over the workflow registry, the deploy, activate and pause commands, the limit on active workflows, transactions submitted later |
| `SecretsProtocol.dfy`, `SecretsCommands.dfy`, `GatewayRetry.dfy` | the secrets protocol over processes, chain, disk and gateway; the commands as sequences of its steps; the retrying POST |
| `Monitor.dfy`, `Recovery.dfy` | the agent: event poller, recovery handler, metrics |
| `ChainTables.dfy`, `TriggerId.dfy`, `PackageNames.dfy` | simulator tables, the chain selector in a trigger id, package names and output directories |
| `Text.dfy` | decimal numerals, ASCII lower case, Option and Result |

Code that changes things step by step is a method or a class tied to a specification function;
the promises are lemmas about that function.

Properties that hold only under a condition come with that condition, both ways:

- Settlement overdraws no maker exactly when every maker with liquidity is the first entry with its
  address (`OverdraftExactly`); the verdict is the intended comparison exactly for positive deficits
  and for negative ones with a threshold between 0 and 1 (`VerdictExactly`).
- Argument names stay as they are exactly when the base names are distinct. Distinct camel-cased names
  are not enough: a generic `arg0` can meet an argument of that name (`GenericNameClashes`). The comment
  on normalizeArgs promises generic names for key words, but the test comes before the camel-casing:
  a key word results exactly when another name turns into one (`NoKeyWordExactly`), as `Type` does
  (`KeyWordSlipsThrough`).
- Stripping contract names off struct names leaves the stored field types alone. The printed structs
  name their field types rightly exactly when no contract name is a prefix of the name of a tuple
  inside another one (`FinalTableClosedExactly`; `PrintedTableClosedExactly` says it of the contracts
  alone); a contract `C` with a struct `COuter` that holds a `CInner` breaks it (`StaleFieldType`).
- Equally liquid makers are filled in the order of the list: the fills are the same exactly when the
  makers of each balance keep their order (`FillsDependOnTiesExactly`).
- The workflow limit holds over all runs for every limit but 2^32 - 1 (`LimitSafetyExactly`), for an
  owner whose workflows are in the command line's DON family. Otherwise a redeployment, which skips
  the check, exceeds it exactly when the limit is used up and the workflow is active but not counted:
  it is in another family, or, if updates pause too, none of its name is counted (`RedeployExactly`).
- Transactions that are prepared and submitted later can exceed the limit, by as many as were overtaken
  by another submission after their check (`ExcessIsBounded`) and by no fewer (`ExcessIsReached`).
- A Raw or Changeset run does post when its digest turns out to be allowlisted already
  (`UnsignedRunExactly`).
- The execute command asks about the digest field of a bundle and posts its request. What it posts
  was allowlisted, in all runs, exactly for the bundles whose digest field is the digest of the request
  or does not parse (`ExecutesSafelyExactly`, `SafeWithEditsExactly`).
- Statuses are delivered exactly once if and only if no handler call throws (`DeliversExactlyOnce`);
  the handler of the agent never does (`AsyncHandlerSeesAllOnce`).
- Decryption undoes encryption exactly for strings without lone surrogates (`CccRoundTripExactly`).
- Output directories are distinct unless both `.abi` and `..abi` are among the files
  (`OutputDirsDistinctExactly`).
- The last experimental entry of a chain decides its forwarder unless it restates the supported one
  after an override (`LastEntryDecidesExactly`).

Parameters stand for what the code calls but does not define: `Math.random`, clocks, RPC and HTTP
outcomes, the order of Go map iteration, `abi.ToCamelCase` (any function), `abi.ResolveNameConflict`
(any function whose result is unused), the request digest (any function to 32 bytes), `HexToAddress`.

## Model

| member | source | states |
|---|---|---|
| Settlement.MatchOrders | workflow/ccc-settlement.ts:130-161 | the loop over the sorted makers produces the fills of the specification, prices included |
| Settlement.Quote | workflow/ccc-settlement.ts:147-149 | every draw from [0, 1) gives a price inside the slippage band around 1 |
| Settlement.QuoteIsEven | workflow/ccc-settlement.ts:147-149 | the draw 0 gives the lower end of the band and the price rises in proportion to the draw |
| Settlement.EveryPriceIsQuoted | workflow/ccc-settlement.ts:147-149 | every price of the band is quoted for some draw |
| Settlement.FillsTotal | workflow/ccc-settlement.ts:130-161 | the fills total min(deficit, sum of positive balances), or zero for a deficit that is not positive |
| Settlement.FillsDescribed | workflow/ccc-settlement.ts:138-158 | the k-th fill names the k-th most liquid maker, is priced by the k-th draw, and takes all of the balance unless it is the last |
| Settlement.FewestCounterparties | workflow/ccc-settlement.ts:138-158 | no set of makers smaller than the number of fills can supply the filled total |
| Settlement.AmountsIgnoreMakerOrder | workflow/ccc-settlement.ts:138-158 | the sequence of fill amounts is the same for every permutation of the maker list and for all random draws |
| SettlementTies.FillsDependOnTiesExactly | workflow/ccc-settlement.ts:138-158 | two tables settle every deficit by the same fills, addresses and prices included, if and only if the makers of each positive balance stand in the same order in both |
| SettlementRounds.ApplyFills | workflow/ccc-settlement.ts:167-181 | the update debits the first maker found for each fill, credits the reserve, lowers the commitment and counts the version |
| SettlementRounds.BalancesAfter | workflow/ccc-settlement.ts:170-177 | fills debit exactly the first maker of each address by what is paid out of it and nobody else |
| SettlementRounds.RunConserves | workflow/ccc-settlement.ts:130-181 | over any run, for any table, makers plus reserve and committed minus makers are constant and the version rises by one a round |
| SettlementRounds.RunCredits | workflow/ccc-settlement.ts:130-181 | over any run no maker is overdrawn and the reserve gains min(sum of positive deficits, initial liquidity) |
| SettlementRounds.SplittingChangesNothing | workflow/ccc-settlement.ts:130-181 | runs with the same total demand end with the same reserve, commitment and maker total |
| SettlementRounds.OverdraftExactly | workflow/ccc-settlement.ts:171-174 | every deficit leaves all balances non-negative if and only if each maker with liquidity is the first with its address |
| SettlementRounds.DistinctIsAddressable | workflow/ccc-settlement.ts:171-174 | distinct addresses meet that condition |
| SettlementRounds.VerdictExactly | workflow/ccc-settlement.ts:225-240 | success is min(deficit, liquidity) >= ratio * deficit exactly for positive deficits, or negative ones with a ratio strictly between 0 and 1 |
| RollingHash.ComputeBalanceHash | workflow/ccc-settlement.ts:112-122 | the loop computes the base-31 polynomial of the code units as ToInt32 of section 7.1.6 of ECMA-262 |
| RollingHash.FirstUnitCountsMost | workflow/ccc-settlement.ts:112-120 | the first code unit counts the highest power of 31 and the rest is hashed as by itself |
| RollingHash.RenderedFacts | workflow/ccc-settlement.ts:121 | the text is "0x" and 64 hexadecimal digits denoting the absolute value, for -2^31 too |
| RollingHash.RenderedCollides | workflow/ccc-settlement.ts:121 | two hashes give the same text exactly when they agree up to sign |
| Codec.CccRoundTripExactly | workflow/ccc-settlement.ts:91-107 | decrypting an encryption returns the plaintext exactly when it has no lone surrogate |
| Codec.EncryptedText | workflow/ccc-settlement.ts:104-107 | the encrypted text is 0x and the lower-case hexadecimal digits of the UTF-8 bytes |
| Codec.CccRoundTrip | workflow/ccc-settlement.ts:91-107 | for every string, decryption of its encryption is the string with each lone surrogate replaced by U+FFFD |
| Codec.FirstIsRemoved | workflow/ccc-settlement.ts:91-97 | the prefix is removed at its first occurrence only |
| Hex.DecodeLenientExactly | workflow/ccc-settlement.ts:91-97 | the lenient reader reads the longest start made of pairs of digits, in either case |
| Codec.Utf8RoundTrip | workflow/ccc-settlement.ts:91-107 | decoding UTF-8 returns every encoded sequence of scalar values |
| Utf8Laws.Utf8Exactly | workflow/ccc-settlement.ts:104-107 | bytes encode a scalar value exactly when they have the form of UTF-8, spell the number and are as short as possible |
| Utf8Laws.ReaderExactly | workflow/ccc-settlement.ts:91-97 | the reader returns the value whose encoding comes first, and else one replacement character for the maximal start of an encoding |
| Codec.HexToBytes32Exactly | research/cre-cli/cmd/secrets/common/handler.go:332-344 | a text is read as a digest if and only if it is its 64 digits in either case, by themselves or after 0x |
| Codec.DigestRoundTrip | research/cre-cli/cmd/secrets/common/handler.go:444-448 | the digest written into a bundle is read back |
| Codec.BundleFilenameIs | research/cre-cli/cmd/secrets/common/bundle.go:19-21 | the file name is the 64 digits of the digest and .json |
| Codec.BundleFilenameInjective | research/cre-cli/cmd/secrets/common/bundle.go:19-21 | different digests get different bundle files |
| StructTable.Binder.BindStructType | research/cre-cli/cmd/generate-bindings/bindings/abigen/bind.go:356-401 | the in-place recursion returns and leaves in the shared table what the specification says |
| CanonicalTypes.CanonicalExactly | research/cre-cli/cmd/generate-bindings/bindings/abigen/bind.go:365-368 | types have the same canonical expression if and only if they are equal up to the raw names inside |
| CanonicalTypes.IdExactly | research/cre-cli/cmd/generate-bindings/bindings/abigen/bind.go:365-368 | tuples share an entry if and only if they have the same raw name and the same shape |
| CanonicalTypes.SampleWords | research/cre-cli/cmd/generate-bindings/bindings/abigen/bind.go:365-368 | the elementary types are spelled as the ABI specification does |
| CanonicalTypes.SampleCompounds | research/cre-cli/cmd/generate-bindings/bindings/abigen/bind.go:365-368 | so are arrays, slices and tuples |
| StructTable.IdentitiesDiffer | research/cre-cli/cmd/generate-bindings/bindings/abigen/bind.go:365-368 | a tuple never has the id of a tuple with a longer type expression, whatever the raw names |
| StructTable.RegistrationIsSound | research/cre-cli/cmd/generate-bindings/bindings/abigen/bind.go:323-401 | registration changes no entry; in every later table bindType gives the string returned now and registering again is a no-op |
| StructTable.NewEntryDescribesTuple | research/cre-cli/cmd/generate-bindings/bindings/abigen/bind.go:369-393 | a new entry has one field for each component, in order, of its type and under its camel-cased name resolved against the fields before it; the entry has the raw or the numbered name |
| StructTable.RegisterKeepsClosed | research/cre-cli/cmd/generate-bindings/bindings/abigen/bind.go:369-393 | every tuple reached through a field is registered, field types are what the table says, field names in a struct differ |
| StructTable.RunIsSound | research/cre-cli/cmd/generate-bindings/bindings/abigen/bind.go:356-401 | the same over any run of registrations, and every type of the run is found at the end |
| StructNames.RunRepresents | research/cre-cli/cmd/generate-bindings/bindings/abigen/bind.go:356-401 | after any run every tuple a registered type reaches has an entry with a field of the right shape and Go type for each component, and two share one only if raw name and shape agree |
| GoTypes.IntegersFit | research/cre-cli/cmd/generate-bindings/bindings/abigen/bind.go:297-318 | the Go type of an integer type holds all its values and, unless it is *big.Int, no others; it is a machine integer for the widths 8, 16, 32 and 64 |
| GoTypes.BasicGoExactly | research/cre-cli/cmd/generate-bindings/bindings/abigen/bind.go:297-318 | basic types share a Go type exactly when they are equal, both need *big.Int or both have 24 bytes |
| GoTypes.GoArrayExactly | research/cre-cli/cmd/generate-bindings/bindings/abigen/bind.go:320-334 | the Go type of an array or slice determines its size and the Go type of its elements |
| StructTable.NumberedNamesAreInjective | research/cre-cli/cmd/generate-bindings/bindings/abigen/bind.go:383-392 | when no tuple is named, struct names are injective in the id over any run |
| NormalizeArgs.MakeUnused | research/cre-cli/cmd/generate-bindings/bindings/abigen/bindv2.go:210-216 | the renaming loop ends for every finite set of used names and gives the specified name |
| NormalizeArgs.FreshName | research/cre-cli/cmd/generate-bindings/bindings/abigen/bindv2.go:210-216 | the result is unused, extends the name, and is the name itself exactly when that was unused |
| NormalizeArgs.FreshNameExactly | research/cre-cli/cmd/generate-bindings/bindings/abigen/bindv2.go:210-216 | the name chosen is the first unused one of the name, the name with 0, with 01, with 012 and so on |
| NormalizeArgs.Normalize | research/cre-cli/cmd/generate-bindings/bindings/abigen/bindv2.go:195-219 | works on a fresh array and yields the specified arguments |
| NormalizeArgs.NormalizedFacts | research/cre-cli/cmd/generate-bindings/bindings/abigen/bindv2.go:195-219 | names are pairwise distinct, non-empty and extend their base names; count and types are kept |
| NormalizeArgs.UnnamedAreNumbered | research/cre-cli/cmd/generate-bindings/bindings/abigen/bindv2.go:203-205 | unnamed arguments are called arg0, arg1 and so on by position |
| NormalizeArgs.RenamesNothingExactly | research/cre-cli/cmd/generate-bindings/bindings/abigen/bindv2.go:199-217 | nothing is renamed if and only if the base names are distinct |
| NormalizeArgs.DistinctCamelNamesStay | research/cre-cli/cmd/generate-bindings/bindings/abigen/bindv2.go:203-208 | distinct capitalised camel-cased names are only decapitalised |
| NormalizeArgs.LowerFirstExactly | research/cre-cli/cmd/generate-bindings/bindings/abigen/bindv2.go:207 | only the first byte changes, to lower case or to U+FFFD |
| NormalizeArgs.GenericNameClashes | research/cre-cli/cmd/generate-bindings/bindings/abigen/bindv2.go:204-216 | an unnamed argument followed by one called arg0 forces a renaming although the camel-cased names differ |
| NormalizeArgs.NoKeyWordExactly | research/cre-cli/cmd/generate-bindings/bindings/abigen/bindv2.go:190-209 | some resulting name is a Go key word if and only if some argument name that is none becomes one by camel-casing and lower-casing its first letter |
| NormalizeArgs.KeyWordSlipsThrough | research/cre-cli/cmd/generate-bindings/bindings/abigen/bindv2.go:199-208 | the argument name Type, which the test for key words lets pass, becomes type |
| BindV2.ContractBinder.BindIn | research/cre-cli/cmd/generate-bindings/bindings/abigen/bindv2.go:136-190 | binding one symbol is one step of the specification on the scope of its kind; a clash leaves scopes and struct table alone |
| BindV2.ContractBinder.BindSorted | research/cre-cli/cmd/generate-bindings/bindings/abigen/bindv2.go:281-294 | collecting keys in any order, sorting and binding gives the outcome of every order |
| BindV2.ContractBinder.Bind | research/cre-cli/cmd/generate-bindings/bindings/abigen/bindv2.go:313-338 | constructor, methods, events and errors of a contract bind in place as specified for every order of their maps, or report the same clash |
| ContractBinding.BindingIgnoresMapOrder | research/cre-cli/cmd/generate-bindings/bindings/abigen/bindv2.go:306-339 | names, struct table and reported clash are the same for every enumeration order of the maps of all contracts |
| ContractBinding.ContractNamesAreInjective | research/cre-cli/cmd/generate-bindings/bindings/abigen/bindv2.go:319-338 | on success identifiers are injective over methods, events and errors, and exactly the symbols that are not anonymous are bound |
| ContractBinding.ContractDescribes | research/cre-cli/cmd/generate-bindings/bindings/abigen/bindv2.go:136-265 | for every order of the maps each bound entry keeps a symbol of that name as original, with its identifier, its inputs and outputs in count, type, flag and order under distinct names, and is structured exactly when there are several outputs |
| ContractBinding.EverySymbolIsBound | research/cre-cli/cmd/generate-bindings/bindings/abigen/bindv2.go:319-338 | every symbol that is not anonymous is bound under its name to its own description |
| ContractBinding.ClashIsReal | research/cre-cli/cmd/generate-bindings/bindings/abigen/bindv2.go:136-152 | a symbol clashes exactly when its identifier is taken and does not start with a digit |
| ContractBinding.LexLeqExactly | research/cre-cli/cmd/generate-bindings/bindings/abigen/bindv2.go:281-287 | keys are walked in the order of the first difference, a prefix first |
| ContractBinding.TemplateTypesAreFound | research/cre-cli/cmd/generate-bindings/bindings/abigen/bindv2.go:313-362 | after binding and sanitizing, every look-up by type for an argument of any symbol or constructor finds its struct; what a struct says of its fields is FinalTableClosedExactly |
| ContractBinding.BindAllIsRun | research/cre-cli/cmd/generate-bindings/bindings/abigen/bindv2.go:306-339 | binding all contracts fills the struct table as one run of registrations of their argument types |
| BindV2.SanitizeStructNames | research/cre-cli/cmd/generate-bindings/bindings/abigen/bindv2.go:383-395 | prefix stripping gives the same table for every walk over the structs and every order of the contract names |
| BindV2.BindAndSanitize | research/cre-cli/cmd/generate-bindings/bindings/abigen/bindv2.go:300-356 | what reaches the template, or the clash, is that of every order of all maps |
| Sanitizing.SanitizedClosedExactly | research/cre-cli/cmd/generate-bindings/bindings/abigen/bindv2.go:383-395 | stripping contract names keeps a closed table closed if and only if no non-empty contract name is a prefix of the name of a tuple that some field reaches through arrays and slices |
| ContractBinding.FinalTableClosedExactly | research/cre-cli/cmd/generate-bindings/bindings/sourcecre.go.tpl:60-67 | in the table that is printed every field type is the declared name of its tuple, for all contracts and all map orders, exactly under that condition |
| ContractBinding.PrintedTableClosedExactly | research/cre-cli/cmd/generate-bindings/bindings/abigen/bindv2.go:300-395 | for contracts whose tuples are named: the printed field types are right if no contract name is a prefix of the camel-cased name of a tuple held by another tuple of the argument types, and only if, when tuples of equal name and canonical type are the same |
| StructNames.ShadowedTuple | research/cre-cli/cmd/generate-bindings/bindings/abigen/bind.go:365-368 | of two structs of the same name and shape only the first is registered, so a clashing member of the second does no harm |
| Sanitizing.StaleFieldType | research/cre-cli/cmd/generate-bindings/bindings/abigen/bindv2.go:390-394 | with contract C and a tuple COuter that holds a CInner, the table declares Outer and Inner while the field is still typed CInner |
| Sanitizing.SanitizedInTurn | research/cre-cli/cmd/generate-bindings/bindings/abigen/bindv2.go:390-394 | contract names are stripped one after the other, each off what the ones before left |
| Registry.FetchAll | research/cre-cli/cmd/workflow/pause/pause.go:244-276 | returns the whole list in order, and fails exactly when one of the calls of the scan fails |
| Registry.CountActive | research/cre-cli/cmd/workflow/deploy/limits.go:58-90 | the count is the number of active workflows of the family cut to 32 bits |
| Registry.CheckUserDonLimit | research/cre-cli/cmd/client/workflow_registry_v2_client.go:564-607 | admits exactly when all calls work and the 32-bit sum is within the limit; each error says what happened |
| Registry.WithinLimitExactly | research/cre-cli/cmd/client/workflow_registry_v2_client.go:602-604 | the 32-bit test agrees with the unbounded one exactly when the sum does not wrap or wraps above the limit |
| RegistryLimits.CheckBeforeDeploy | research/cre-cli/cmd/workflow/deploy/limits.go:25-56 | passes for an existing workflow, otherwise exactly as the admission rule says unless a call fails |
| RegistryLimits.AdmittedExactly | research/cre-cli/cmd/workflow/deploy/limits.go:34-53 | a registration under a new tag is admitted exactly when the limit holds after it, what it replaces counted off |
| RegistryLimits.DeployRefusedExactly | research/cre-cli/cmd/workflow/deploy/deploy.go:217-257 | a deployment is refused as deployed already, cancelled or over the limit in exactly these cases |
| RegistryLimits.DeployStores | research/cre-cli/cmd/workflow/deploy/register.go:33-58 | a deployment stores its record with the status of the one it replaces, pauses the others of the name exactly when it is to, and changes nothing else |
| RegistryLimits.DeployHandler.Execute | research/cre-cli/cmd/workflow/deploy/deploy.go:217-257 | the registry makes the command's step with the step's own outcome, or stays when a call fails |
| RegistryLimits.DeployHandler.WorkflowExists | research/cre-cli/cmd/workflow/deploy/deploy.go:260-275 | remembers the status of the workflow of the name and tag, refuses the same id |
| RegistryLimits.ExecuteActivate | research/cre-cli/cmd/workflow/activate/activate.go:145-179 | for whatever newest workflow sorting puts first, the registry makes that activation's step with its outcome, or stays when a call fails |
| RegistryLimits.ExecutePause | research/cre-cli/cmd/workflow/pause/pause.go:145-173 | the registry makes the command's step with the step's own outcome, or stays when a call fails |
| RegistryLimits.PauseStops | research/cre-cli/cmd/workflow/pause/pause.go:153-173 | after a pause nothing of the name is active, and otherwise only statuses change to paused |
| RegistryLimits.PauseExactly | research/cre-cli/cmd/workflow/pause/pause.go:153-173 | with unique ids a pause hits exactly the active workflows of the name |
| RegistryLimits.PauseRefusedExactly | research/cre-cli/cmd/workflow/pause/pause.go:145-165 | a pause is refused exactly when the name is unknown or has nothing active |
| RegistryLimits.ActivationExactly | research/cre-cli/cmd/workflow/activate/activate.go:145-179 | with unique ids an activation sets status and family of the chosen paused workflow and nothing else |
| RegistryLimits.ActivationRefusedExactly | research/cre-cli/cmd/workflow/activate/activate.go:164-172 | an activation is refused exactly when the newest workflow is not paused or one more exceeds the limit |
| RegistryLimits.RedeployExactly | research/cre-cli/cmd/workflow/deploy/limits.go:34-36 | a redeployment exceeds a limit that held exactly when the limit is used up and the workflow is active but not counted, under either reading of what an update without KeepAlive pauses |
| RegistryLimits.StepKeepsLimitExactly | research/cre-cli/cmd/workflow/deploy/limits.go:25-56 | below the limit 2^32 - 1, for any list, one command breaks a limit that held exactly when it is such a redeployment |
| RegistryLimits.StepKeepsProper | research/cre-cli/cmd/workflow/deploy/deploy.go:217-257 | every command that brings an id of its own keeps ids, and names with tags, unique |
| RegistryLimits.RunKeepsLimit | research/cre-cli/cmd/workflow/deploy/limits.go:25-56 | any sequence of deployments, redeployments, activations and pauses keeps the active count within the limit |
| RegistryLimits.LimitSafetyExactly | research/cre-cli/cmd/client/workflow_registry_v2_client.go:602-604 | over lists with unique ids and names and over commands with ids of their own, all runs are safe if and only if the limit is below 2^32 - 1 |
| RegistryInterleaving.CheckThenEffect | research/cre-cli/cmd/workflow/deploy/register.go:60-130 | a check followed at once by the submission of its transaction is the command as one step |
| RegistryInterleaving.ExcessIsBounded | research/cre-cli/cmd/workflow/activate/activate.go:169-200 | under every interleaving of checks and later submissions the active workflows exceed the limit by no more than the number of submissions that another one overtook after their check, as long as the two stay below 2^32 - 1 together |
| RegistryInterleaving.ExcessIsReached | research/cre-cli/cmd/workflow/deploy/register.go:82-130 | every such excess is reached over any positive limit |
| GatewayRetry.Post | research/cre-cli/cmd/secrets/common/gateway.go:24-98 | at least one and at most the bound of attempts, stopping at the first success or first answer not worth a retry, reporting the last answer |
| GatewayRetry.AnswersAreOneOfThree | research/cre-cli/cmd/secrets/common/gateway.go:40-60 | every answer is exactly one of a success, worth a retry, or final |
| SecretsProtocol.Protocol.PostsAreAuthorised | research/cre-cli/cmd/secrets/execute/execute.go:45-79 | in every interleaving a post follows an authorisation of its digest by the same process, unless that process loaded a bundle whose digest field parses to another digest than its request has |
| SecretsProtocol.Protocol.PostsAreAllowlisted | research/cre-cli/cmd/secrets/common/handler.go:411-460 | when others write only harmless bundle files, every request posted was sent after its process learnt that its digest is allowlisted, while the chain held it |
| SecretsProtocol.Protocol.ExecutesSafelyExactly | research/cre-cli/cmd/secrets/execute/execute.go:62-79 | for every loadable bundle: whoever executes it, in any run, posts only after learning that the digest of the request is allowlisted, if and only if the digest field does not parse or is the digest of the request |
| SecretsProtocol.Protocol.SafeWithEditsExactly | research/cre-cli/cmd/secrets/execute/execute.go:45-79 | for every set of files that others may write: no run posts a request unauthorised if and only if all of them are harmless |
| SecretsProtocol.Protocol.MisleadingBundlePosts | research/cre-cli/cmd/secrets/execute/execute.go:62-79 | every loadable bundle whose digest field parses to another digest is posted by some run that never allowlists its request |
| SecretsProtocol.Protocol.UnsignedRunExactly | research/cre-cli/cmd/secrets/common/handler.go:413-467 | after its query a Raw or Changeset process has a continuation that posts exactly when the digest was allowlisted, one that saves exactly when it was not, and whenever it saves the file holds the bundle of its request |
| SecretsProtocol.Protocol.SavedRequestIsPosted | research/cre-cli/cmd/secrets/common/handler.go:444-467 | in every interleaving, whatever executes a saved file that others leave alone posts nothing but requests of its digest, so that very request if no other collides with it, and only once that digest is allowlisted |
| SecretsProtocol.Protocol.TwoPhasesPostTheRequest | research/cre-cli/cmd/secrets/common/handler.go:444-467 | preparing, allowlisting and executing without interruption posts the prepared request: the outcome that SavedRequestIsPosted allows does occur |
| SecretsProtocol.Protocol.PostsAreBounded | research/cre-cli/cmd/secrets/common/gateway.go:24-61 | no process posts more than five times, and always the same request |
| SecretsCommands.World.Upsert | research/cre-cli/cmd/secrets/common/handler.go:349-510 | posts exactly when the query succeeds and the digest was listed or its Regular transaction is validated, with as many attempts as the answers call for; states what is left on disk and on chain |
| SecretsCommands.World.ExecuteBundle | research/cre-cli/cmd/secrets/execute/execute.go:45-88 | posts the saved request exactly when the bundle loads, its digest parses and the chain lists it |
| SecretsCommands.World.GatewayPost | research/cre-cli/cmd/secrets/common/handler.go:424-433 | one POST is one to five attempts with the same request and ends the process; five bounds the copies that reach the gateway, as an attempt whose transport failed may not |
| Monitor.PollLoop | agent/monitor.ts:16-46 | the loop over turns delivers and moves on as the specification says |
| Monitor.DecodedAreHandedOver | agent/monitor.ts:32-37 | of any logs exactly those with decoded arguments are handed over, in their order |
| Monitor.DeliversExactlyOnce | agent/monitor.ts:16-46 | delivered statuses are those of blocks 1..lastBlock in order and each once if and only if no handler call threw, whichever RPC calls failed |
| Monitor.AsyncHandlerSeesAllOnce | agent/index.ts:49-99 | with the agent's own handler, which cannot throw into the loop, every run delivers exactly the statuses of blocks 1..lastBlock |
| Monitor.BlocksAreDelivered | agent/monitor.ts:20-43 | what a run delivers is, for every block up to its position, the statuses of the blocks before, of that block, and of those after |
| Monitor.RunAdvances | agent/monitor.ts:20-43 | over any continuation of any run the position never moves back, what was delivered stays, and every height a successful turn saw is reached |
| Recovery.MetricsCollector.RecordRecoveryFailure | agent/metrics.ts:58-73 | counts the failure and keeps the last hundred errors |
| Recovery.AgentIsSound | agent/index.ts:47-99 | over any interleaving one recovery at most is in flight, total is successful plus failed plus executing, and the errors are the last min(n, 100) failures |
| Recovery.FiguresAreOfHistory | agent/metrics.ts:37-73 | over any interleaving the figures are the successes, failures, durations and last hundred errors of the completions so far |
| Recovery.StartsExactly | agent/index.ts:49-57 | in every reachable state a recovery starts exactly at an insolvent status while none is in flight |
| Recovery.ReportsAreConsistent | agent/metrics.ts:75-95 | at every report nothing is in flight in the figures, rate and mean times the total give the successes and the durations, uptime is whole seconds, recent errors are the last ten failures of all |
| Recovery.Agent.OnCompletion | agent/index.ts:59-92 | the continuation of a recovery records its outcome and reports the new figures |
| ChainTables.ResolveInputs | research/cre-cli/cmd/workflow/simulate/simulate.go:115-211 | the two loops fill client and forwarder tables as specified, stopping at the first bad entry |
| ChainTables.ResolveExactly | research/cre-cli/cmd/workflow/simulate/simulate.go:115-211 | resolution succeeds exactly when every entry is acceptable after those before it, some selector has a client and the key is in order; the client of a selector is that of the supported chain or else the one of its first experimental entry |
| ChainTables.FirstBadEntry | research/cre-cli/cmd/workflow/simulate/simulate.go:145-194 | a failing list is reported at its first entry that is not acceptable, with the reason |
| ChainTables.BuildEvmChains | research/cre-cli/cmd/workflow/simulate/capabilities.go:57-81 | for every walk order the chain table joins clients and forwarders, unless the registry rejects one |
| ChainTables.ChainTableIsComplete | research/cre-cli/cmd/workflow/simulate/simulate.go:139-194 | after successful resolution the chain table has exactly the client selectors, each with its effective client and its effective forwarder |
| ChainTables.LastEntryDecidesExactly | research/cre-cli/cmd/workflow/simulate/simulate.go:160-183 | the last experimental entry decides the forwarder exactly when it differs from the supported one or nothing overrode it before |
| ChainTables.ChainIsAlwaysInitialized | research/cre-cli/cmd/workflow/simulate/simulate.go:630-656 | the branch "no EVM chain initialized" is unreachable, and a trigger fires exactly for client selectors with a log |
| ChainTables.SupportedChainsAreInitialized | research/cre-cli/cmd/workflow/simulate/simulator_utils.go:29-93 | with the simulator's own table of forwarders every client has its EVM chain, and a trigger fires exactly for client selectors with a log |
| TriggerId.ParsesFirstMatch | research/cre-cli/cmd/workflow/simulate/simulator_utils.go:96-110 | the digits after the first match of the key, in any case, are read as their value when it fits 64 bits and refused otherwise |
| TriggerId.KeyIgnoresCase | research/cre-cli/cmd/workflow/simulate/simulator_utils.go:96-98 | an ASCII text is the key exactly when its lower case is; beyond ASCII only the long s stands for a letter |
| TriggerId.EvmTriggerId | research/cre-cli/cmd/workflow/simulate/simulator_utils.go:96-110 | the simulator id evm:ChainSelector: with a number gives that selector |
| TriggerId.SelectorRoundTrip | research/cre-cli/cmd/workflow/simulate/simulator_utils.go:96-110 | the decimal of every selector below 2^64 comes back, a larger one is refused |
| TriggerId.NoMatchNoSelector | research/cre-cli/cmd/workflow/simulate/simulator_utils.go:98-102 | no digits are found exactly when the expression matches nowhere |
| PackageNames.ContractNameToPackage | research/cre-cli/cmd/generate-bindings/generate-bindings.go:154-190 | the index loop computes the specified package name |
| PackageNames.RunOfCapitals | research/cre-cli/cmd/generate-bindings/generate-bindings.go:154-190 | a run of capitals gets an underscore before it unless it starts the name and one before a last capital that starts a word, none elsewhere; what stands around it is spelled as alone |
| PackageNames.WordsAreJoined | research/cre-cli/cmd/generate-bindings/generate-bindings.go:154-190 | camel-cased words are joined by underscores |
| PackageNames.PackageNameFacts | research/cre-cli/cmd/generate-bindings/generate-bindings.go:154-190 | no ASCII capitals, idempotent, equal to the lower-cased name up to underscores |
| PackageNames.ScanForCollisions | research/cre-cli/cmd/generate-bindings/generate-bindings.go:203-212 | passes exactly when the package names are distinct, and else reports a package that two files share |
| PackageNames.OutputDirExactly | research/cre-cli/cmd/generate-bindings/generate-bindings.go:215-224 | the output directory is the path and the package name, but for the names "", "." and ".." |
| PackageNames.OutputDirsDistinctExactly | research/cre-cli/cmd/generate-bindings/generate-bindings.go:215-224 | when the scan passes, the output directories are distinct if and only if not both "" and "." are contract names |

## Left out

- The Solidity contracts: only their clients are in the repository. The registry is taken as the
  command line describes it: a new registration without KeepAlive pauses the other workflows of the
  name, an update sets the status it is given, an activation sets the DON family it is given. Whether
  an update without KeepAlive pauses the other workflows too is a parameter (`updatePauses`).
- What the registry contract itself refuses when a transaction arrives late: the model lets every
  submitted transaction take effect.
- Floating-point rounding in the settlement: amounts are exact reals.
- `JSON.stringify` of the balance table: the hash takes the serialized text.
- Encryption, digests, signatures and the brotli and OAuth code: foreign libraries.
- The public-key request that precedes a create or update, the ownership check and the parsing of the
  gateway's answer: they decide whether a run goes on, not what it posts.
- Expiry times of allowlist entries: an entry may expire at any step.
- `abi.ToCamelCase` and `abi.ResolveNameConflict`: left open, so uniqueness of named
  structs is not claimed.
- Template rendering, the hashed topic types of indexed event arguments, library links, settings loading, prompts, logging, the dashboard, the demo and
  mock servers: input, output and plumbing.
- Workflow delete and the changeset files: they handle a first page or a single id only.
- The recovery steps themselves: a recovery ends in success, failure or an exception.
- Versions beyond the first page of 200 when a workflow is activated: the code does not look at them.

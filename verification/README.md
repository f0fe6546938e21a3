# Safenet arbitration bot: verification model

This project models, in Dafny 4.11, the parts of the arbitration bot that decide something:
what a Safe transaction does, whether it is secure, what the oracle's logs say, what a Safe
executed, and what the rulings corpus records. The Go code is modelled function by function;
loops and objects that change are methods and classes, proved against functions that the
theorems are about. `dafny verify dfyconfig.toml` checks all of it.

## What is modelled

- **The ABI codec** (`SolAbi`, `SolAbiTheorems`, `SolAbiExact`): the encoder, with its head and
  tail, and the decoder, whose decoders of nested tuples share one error. It is proved to
  round-trip, and compared with an independent definition of the reference encoding; and what
  each accessor accepts is stated for any data.
- **The MultiSend expander** (`MultiSendExpander`, `MultiSendTheorems`, `MultiSendRoundTrip`,
  `MultiSendRules`): the copying loop refines a machine that reads an infinite memory; it
  terminates, and inverts the packing of nested batches of any depth, also cut off ones.
- **The classifier** (`Components`, `Checks`, `ClassifyTheorems`, `SettingsTheorems`,
  `SecureTexts`, with `SafeVersions` and `CallReader`): all seventeen checks in their order, and
  exactly when a request is secure, insecure, or neither, with its rule and description.
- **Search and scan** (`SearchBlock`, `ScanLogs`): interpolation with a bisection fallback, for
  any estimator, and adaptive chunking, for any node that refuses what it likes.
- **The oracle's logs** (`OracleLogs`, and `Oracle` with `OracleVotes`, `OracleArbitration`,
  `OraclePending`, `OracleRulings`; `OracleQueries`, `Rules`, `RulesTheorems`, `Proposals`): the
  readers, proved to agree with a step machine that emits the logs, on every run of it, also
  through the chunked scan of a node that refuses ranges.
- **Executions of a Safe** (`SafeTxHash`, `Eip712`, `Preorder`, `Executions`,
  `ExecutionsTheorems`, `LogTheorems`, `SourcesTheorems`, `SafeNonce`, `SafeSearch`): the hashes are
  those of EIP-712; what any logs list; exactly what is reported, by what the sources answer, of
  which none is trusted; and on every run of a Safe that emits the logs, what a search of any
  blocks lists and reports, and exactly when the nonces worked out are right.
- **Settings of a Safe** (`SafeSettings`, `SafeLists`): what a linked list in untrusted storage
  reads as, that on every run of changes to a Safe's list it reads back its entries, and which
  slots the other fields are in.
- **The rulings corpus** (`Text`, `Corpus`, `CorpusTheorems`, `ReportTheorems`, `IndexCorpus`,
  `IndexCorpusTheorems`, `IndexRulings`): the printer and the parser, around text that others
  wrote, and the order of the indexer's writes, under crashes and reruns, as the chain grows.

## Assumptions

- Keccak-256 is a function parameter, of which nothing is assumed: what a hash binds is stated
  as "equal, or here are two different inputs that hash alike".
- Nodes are functions that may refuse any request, and answer truthfully if they answer. A
  node returns the block that it is asked for. The tables of MultiSend deployments, singletons
  and proxies are arbitrary maps.
- The oracle's rules (`Oracle`) are those that the comments of internal/safenet/safenet.go
  state: a sentinel commits once, by the commit deadline, and reveals once after that, by the
  reveal deadline; a request is frozen at most once, until a fixed number of blocks later; it
  is settled at most once. Blocks plus the timeout are not zero and fit in 64 bits, and texts
  are below 4 GiB.
- The Safe's rules (`SafeNonce`) are those that the comments of internal/executions state: an
  execution uses the nonce and raises it by one, SafeL2 logs the transaction before that, and
  the Safe logs its hash when it is over. An execution can begin inside another on the chain,
  so the model allows it, but only in the same onchain transaction, at whose end none is open.
- The rules of a Safe's lists (`SafeLists`) are those that the comment of the reader's list
  states, with the changes that keep them: an entry is added at the start, and removed or
  replaced by way of the one before it. Storage answers for every slot.
- The library functions that `Corpus` calls are parameters with the properties that
  `CorpusTheorems.Faithful` lists, and hashes, numbers and times are the text that they are
  printed as. A file is written in one step. What a ruling's file is named and holds
  (`IndexRulings.Printer`) are functions of its request's ID and of what is read of the
  request, and each request has a file of its own. The Charter name and the commit window are
  read as of the latest block, and may change; what is of the past may not: the proposal in its
  block, the CID that the name had then, and the document that a hash names.

## Where the code and its documentation differ

- The comment of `Encode` says that tuples are tuples, but the offsets count 32 bytes for each
  member, so the encoding is the standard one only if the static tuples in a tuple with dynamic
  members take one word each on average. `SolAbiTheorems.MatchesReference` is the exact
  condition, and `SolAbiTheorems.StaticPairMisplacesBytes` a family of inputs that breaks it.
- The comment in `decode` says that the nonce of an execution follows from the Safe's nonce, as
  all executions are in the search. That holds if and only if, in the blocks that are searched,
  no execution begins while another is open (`SafeSearch.NoncesRightIffNoNesting`), as the inner
  one is logged first (`SafeSearch.NestedPairIsSwapped`); and for one execution if and only if
  as many overtake it as it overtakes (`SafeSearch.NonceRightIffBalanced`). A wrong nonce loses
  a transaction (`ExecutionsTheorems.WrongNonceLoses`), unless SafeL2 logged it
  (`SafeSearch.EventIsReported`), but cannot misreport one
  (`ExecutionsTheorems.ReportedMatches`).
- `ScanLogs` computes the end of a chunk in 64 bits, and so gives the logs of the range only if
  that does not wrap: exactly if no chunk that it can come to does, whatever a node refuses
  (`ScanLogs.RightIffAllAdvance`), or the last full chunk, with a node that answers
  (`ScanLogs.ExactIffLastAdvances`). Otherwise it goes on from a block below
  (`ScanLogs.WrappedScanIsWrong`), with logs that are repeated or not in the range.
- The comment of `Rulings` says that reading the requests as of the latest block gives the same
  requests as an earlier block would. That holds if and only if the oracle's Charter name and
  its commit window, which are read as of that block too, are the same
  (`OracleRulings.RulingReadsTheSame`). If the name changes, a corpus that a stopped run left
  can't be completed (`IndexRulings.ChangedParametersConflict`).

## Model

| member | source | states |
|---|---|---|
| `SolAbi.EncodeTuple` | internal/solabi/solabi.go:53-65 | the loop that grows a head and a tail computes the encoding that the theorems are about |
| `SolAbi.EncodeOne` | internal/solabi/solabi.go:78-118 | the encoding of a value of each type, including nested tuples and arrays of addresses |
| `SolAbi.Decoder.Word` | internal/solabi/solabi.go:175-185 | a word is read if it fits and nothing failed before; otherwise the shared error is set |
| `SolAbi.Decoder.Uint64` | internal/solabi/solabi.go:199-213 | a number wider than 64 bits is an error, and zero is returned from then on |
| `SolAbi.Decoder.Address` | internal/solabi/solabi.go:215-226 | nonzero upper bytes are an error |
| `SolAbi.Decoder.Bool` | internal/solabi/solabi.go:228-239 | anything but 0 and 1 is an error |
| `SolAbi.Decoder.Bytes` | internal/solabi/solabi.go:250-263 | the offset, the length and the bytes must all be in the data |
| `SolAbi.Decoder.Tuple` | internal/solabi/solabi.go:271-280 | the decoder of a nested tuple starts at its offset and shares the error of the outer one |
| `SolAbiTheorems.RoundTrip` | internal/solabi/solabi.go:174-280 | for tuples nested to any depth, whose static members take one word each, reading each value of an encoding with its accessor returns it, whatever bytes follow |
| `SolAbiTheorems.MatchesReference` | internal/solabi/solabi.go:40-65 | the encoding is the one of section "Formal Specification of the Encoding" of the Solidity Contract ABI Specification, which is stated for each type on its own, if and only if, in each tuple with a dynamic member, 32 bytes for each member is the size of the heads |
| `SolAbiTheorems.StaticPairMisplacesBytes` | internal/solabi/solabi.go:53-65 | a static tuple of two words before bytes makes the offset of the bytes point at itself, for every pair of words and every short bytes |
| `SolAbiExact.WordExactly` | internal/solabi/solabi.go:175-185 | for any data, a word is read if and only if it is there, and none if and only if the data ends before it does |
| `SolAbiExact.Uint64Exactly` | internal/solabi/solabi.go:199-213 | for any data, a 64-bit number is read if and only if its word is the one of a number below 2^64 |
| `SolAbiExact.UintExactly` | internal/solabi/solabi.go:192-197 | for any data, a number is read if and only if its word is there |
| `SolAbiExact.AddressExactly` | internal/solabi/solabi.go:215-226 | for any data, an address is read if and only if its word is twelve zeros and the address |
| `SolAbiExact.BoolExactly` | internal/solabi/solabi.go:228-239 | for any data, a boolean is read if and only if its word is 0 or 1 |
| `SolAbiExact.BytesExactly` | internal/solabi/solabi.go:250-263 | for any data, bytes are read if and only if their offset and length are numbers below 2^64 there, and they are in the data after the length |
| `SolAbiExact.TupleExactly` | internal/solabi/solabi.go:271-280 | for any data, a nested tuple is the data from an offset in it on |
| `MultiSendExpander.ExpandMultiSendCall` | internal/checks/multisend.go:131-188 | the loop over a fixed head and fresh buffers returns the calls, or the revert, of a machine that reads an infinite memory of the bytes followed by zeros; it terminates on every input |
| `MultiSendExpander.RunTransactions` | internal/checks/multisend.go:151-187 | the loop computes what the machine does from offset 0 on, and a revert of a call ends it |
| `MultiSendExpander.DecodeTransaction` | internal/checks/multisend.go:151-176 | the copied head and data are the zero-extended memory at the offset; an oversized length or an operation that is not allowed is invalid |
| `MultiSendExpander.StrippedTransactions` | internal/checks/multisend.go:144-150 | the transactions, without trailing zeros, are at least 37 bytes shorter than the call's data without them |
| `MultiSendTheorems.SubCallIsSmaller` | internal/checks/multisend.go:151-181 | the data of a sub-call, without trailing zeros, is at least 122 bytes shorter, or empty, although its length may grow |
| `MultiSendTheorems.DepthBound` | internal/checks/multisend.go:131-188 | the recursion is at most one deeper than the length over 122, for every input |
| `MultiSendTheorems.ExpandShape` | internal/checks/multisend.go:131-188 | a call expands to itself, or to batched calls, none of which expands any further |
| `MultiSendTheorems.RevertReachesRoot` | internal/checks/multisend.go:114-117 | a revert anywhere in a nest reverts its root |
| `MultiSendTheorems.RevertsExactly` | internal/checks/multisend.go:96-117 | a call reverts if and only if some call that it reaches reverts for a reason of its own |
| `MultiSendTheorems.LeafIsMade` | internal/checks/multisend.go:176-187 | each irreducible call that is reached is made, if the nest does not revert |
| `MultiSendTheorems.ExpandsExactly` | internal/checks/multisend.go:131-188 | for any bytes that do not revert, the calls are exactly the irreducible ones that paths into the nested MultiSends reach, each path once, in the order that they start |
| `MultiSendRoundTrip.BatchRoundTrip` | internal/checks/multisend_test.go:20-32 | expanding the packed encoding of a nest of batches of any depth returns its leaves in order, batched, each to its own address, or to the Safe if that is the zero address and its parent is a 1.5.0 |
| `MultiSendRules.SafeDoesNotMatter` | internal/checks/multisend.go:170-173 | if no deployment is a 1.5.0, what a call expands to does not depend on the Safe |
| `MultiSendRules.NoneIsToZero` | internal/checks/multisend.go:170-173 | if each deployment is a 1.5.0 and the Safe is not the zero address, no call that one makes, at any depth, is to the zero address |
| `MultiSendRules.InvalidReverts` | internal/checks/multisend.go:152-169 | after any valid transactions and before any bytes, a transaction with an operation past a delegate call, a delegate call of a call-only MultiSend, or a length over 2^24 reverts |
| `MultiSendRules.CutRoundTrip` | internal/checks/multisend.go:151-164 | the round trip also if zeros at the end of the last transaction are cut off, with more than 32 of its bytes left, and if at most 32 bytes follow it |
| `Components.RunComponents` | internal/checks/transaction.go:58-79 | for any amounts for which the refund does not make the encoder panic: an error if an amount is missing, and else the transaction's calls followed by its refund |
| `Components.RunGasRefund` | internal/checks/transaction.go:104-123 | for any amounts but a negative refund in a token: the refund, with its amount capped at the largest uint256, in ether or as a token transfer |
| `ComponentsTheorems.RefundIsLargest` | internal/checks/transaction.go:88-103 | no refund that the Safe can pay for the transaction is larger, it is one that the Safe can pay unless it is capped, and there is none if and only if the gas price is zero |
| `ComponentsTheorems.TokenRefundDecodes` | internal/checks/transaction.go:116-122 | the data of a token refund decodes to the receiver and the amount |
| `ComponentsTheorems.EtherRefundTransfers` | internal/checks/transaction.go:113-115 | a refund in ether is a call with no data that sends the amount to the receiver |
| `ComponentsTheorems.RefundAmountIs` | internal/checks/transaction.go:108-112 | the amount is all of the gas at its price, or, if that is smaller, the largest uint256 |
| `ComponentsTheorems.CallsShape` | internal/checks/transaction.go:58-79 | the calls are one root call or only batched ones, followed by a refund if and only if the gas price is not zero |
| `ComponentsTheorems.PlaceholdersExpand` | internal/checks/multisend.go:45-62 | the placeholders expand to a revert and to no calls |
| `ComponentsTheorems.PlaceholdersAre` | internal/checks/multisend.go:45-62 | a transaction that reverts is judged as one call with no value and no data, and one that makes no calls as one delegate call of multiSend with empty bytes and no value; else its calls are judged |
| `ComponentsTheorems.LabelsAreRight` | internal/checks/calls.go:169-187 | a reported root call that is not the transaction's own is labelled reverting if and only if the transaction's call reverts, and empty if and only if it makes no calls |
| `CallReader.Reader.Code` | internal/checks/calls.go:194-204 | the code of an account is read from the node once, and errors are not kept |
| `CallReader.Reader.SafeOf` | internal/checks/calls.go:207-232 | the Safe read through the caches is the one that the node answers |
| `CallReader.Reader.Calls` | internal/checks/calls.go:152-191 | the report, with the function that each call decodes as, does not depend on what was read before |
| `CallReader.ReportsEachCall` | internal/checks/calls.go:168-190 | each component is reported in order, as it is, with its own account, and the report fails if and only if the code of one of them cannot be read |
| `CallReader.ReportExactly` | internal/checks/calls.go:152-191 | a report succeeds if and only if the code of the Safe and of each account that it names can be read, and it holds what is read of them |
| `CallReader.SafeAccountExactly` | internal/checks/calls.go:207-232 | the Safe is reported with what its code says, and with a version if and only if it is one on a covered network |
| `CallReader.AccountExactly` | internal/checks/calls.go:235-250 | an account is reported with the hash and the size of its code, and with a contract if and only if it is a listed one, has code, and the network is covered |
| `CallReader.ContractExactly` | internal/checks/calls.go:253-268 | a MultiSend by its table, and a singleton as SafeL2, without the suffix of its version, if and only if that has it |
| `SafeVersions.VersionCache.Version` | internal/checks/safe.go:119-151 | reading a version through the cache is reading it without |
| `SafeVersions.VersionExactly` | internal/checks/safe.go:125-151 | an account has a version if and only if it has the code of a proxy listed for the network, and the low 20 bytes of its slot 0 are a singleton with that version; and it cannot be read if and only if the node, the code, or slot 0 of a proxy cannot |
| `Checks.RunFirstMatch` | internal/checks/checks.go:182-189 | the first check that matches, or an error of one before it |
| `Checks.RunInsecure` | internal/checks/checks.go:155-165 | the first check that matches any call, or an error of an attempt before it |
| `Checks.RunClassify` | internal/checks/checks.go:142-178 | for any amounts but a negative refund in a token, the loops compute the classification that the theorems are about |
| `ClassifyTheorems.InsecureFirst` | internal/checks/checks.go:155-165 | for any list of checks that answer: if one matches a call, the result is the class of the first in list order that matches any call |
| `ClassifyTheorems.InsecureWinsAtAnyDepth` | internal/checks/checks.go:142-165 | a leaf at any depth of a nest that does not revert, which an insecure check matches, makes the request insecure, if the Safe can be read or is not on a network that is covered |
| `ClassifyTheorems.OffNetworkDecides` | internal/checks/network.go:21-30 | on a network that is not covered, the first check decides, and the Safe is not read |
| `ClassifyTheorems.SecureBreaksNothing` | internal/checks/settings_change.go:104-140 | no insecure check matches a call that a secure check matches, so none matches its own allowed exception |
| `ClassifyTheorems.DisableModuleData` | internal/checks/settings_change.go:104-106 | the byte checks hold if and only if the data is the ABI encoding of the call with two addresses, and no value is sent |
| `ClassifyTheorems.SetFallbackHandlerData` | internal/checks/settings_change.go:108-112 | the byte checks hold if and only if the data is the ABI encoding of the call with the zero address, and no value is sent |
| `ClassifyTheorems.OwnCallsSecure` | internal/checks/cancel_tx.go:44-47 | the calls of a transaction are all found secure if and only if there are none, they revert, they are one allowed exception, or all are empty calls to the Safe or the zero address |
| `ClassifyTheorems.UncoveredIsNotSecure` | internal/checks/network.go:21-30 | a Safe that is not covered breaks one of the first two checks, or cannot be read |
| `ClassifyTheorems.SecureExactly` | internal/checks/checks.go:142-178 | Classify says secure if and only if the network and the Safe are covered, no refund is paid, and the calls are ones found secure |
| `SettingsTheorems.InsecureExactly` | internal/checks/settings_change.go:25-81 | for a covered Safe, Classify says insecure if and only if one of the calls is by the Safe to one of its nine functions that change settings, with all argument bytes, other than the exceptions, stated on the bytes; under R-4.1, with the description of the first such function |
| `SettingsTheorems.EncodedCallIsInsecure` | internal/checks/settings_change.go:28-81 | a request whose own call is an encoded call of one of the functions, with any arguments, gets that function's description, or is not insecure if it adds an owner that cannot be one, is an exception, or the Safe has no module guards |
| `SettingsTheorems.UncoveredExactly` | internal/checks/safe.go:79-87 | on a network other than 1, 100 and 42161, for an account that is not a listed Safe, and for one that cannot be read: the class, or the error |
| `SecureTexts.SecureExactText` | internal/checks/checks.go:166-178 | a secure request is described by what makes it so: a revert, no calls, the exception that it is, or what its empty calls are to, in order |
| `SearchBlock.Search` | internal/ethrpc/search.go:16-65 | for any estimator and any timestamps, a block before the time whose successor is not, after at most twice the bit length of the latest block of probes; it fails only if the time is out of range or the node does not answer |
| `SearchBlock.NextProbe` | internal/ethrpc/search.go:49-54 | a probe is always strictly between the bounds, and in the middle once the budget is spent |
| `SearchBlock.CrossingIsLast` | internal/ethrpc/search.go:12-15 | on timestamps that do not decrease, such a block is the one last block before the time |
| `SearchBlock.ParentBlock` | internal/safenet/safenet.go:430-444 | if the parent can be read and is before the proposal, the parent, and else the result of the search; it fails only if a block cannot be read, or the time is not after the first block's and at most the latest's |
| `SearchBlock.ShortcutFindsTheSame` | internal/safenet/safenet.go:430-444 | on timestamps that do not decrease, the shortcut gives the block that the search gives |
| `ScanLogs.Scan` | internal/ethrpc/logs.go:21-48 | with a node that answers exactly or refuses, on every range in which no chunk that the scan can come to wraps: what is yielded is the answer to one query of the whole range, or its prefix up to the chunk that failed or the log that the consumer stopped at, after a bounded number of queries |
| `ScanLogs.ScanChunk` | internal/ethrpc/logs.go:25-42 | one query of a chunk: if it is refused, nothing is yielded, and it is to be repeated with a smaller step, or the scan fails; if not, its logs are yielded in order, up to where the consumer stops |
| `ScanLogs.ChunkAdvances` | internal/ethrpc/logs.go:27-27 | a chunk contains its first block if and only if its end does not wrap around 64 bits |
| `ScanLogs.ExactIffLastAdvances` | internal/ethrpc/logs.go:24-46 | with a node that answers every query, the scan ends and yields the logs of the range on every chain, if and only if the end of the last full chunk does not wrap |
| `ScanLogs.RightIffAllAdvance` | internal/ethrpc/logs.go:21-48 | whatever queries a node refuses, the scan ends and yields the logs of the range, or those before a chunk that failed, on every chain, if and only if no end of a chunk that it can come to wraps |
| `ScanLogs.WrappedScanIsWrong` | internal/ethrpc/logs.go:27-27 | if the end of a chunk that it can come to wraps, there are a node that makes it come there, and a chain with one log, for which the scan is wrong whenever it is over |
| `OracleLogs.RunVotes` | internal/safenet/safenet.go:495-541 | the loop with the index map computes the votes that the theorems are about |
| `OracleLogs.CheckProgress` | internal/safenet/safenet.go:295-310 | true if and only if the counts are those of the votes |
| `OracleLogs.RunArbitration` | internal/safenet/safenet.go:557-624 | the loop, which ends at the log that settles the arbitration, computes the arbitration that the theorems are about |
| `OracleLogs.RunPending` | internal/safenet/safenet.go:169-210 | the loop with the settled set, the deletion and the sort compute the disputes that the theorems are about |
| `OracleVotes.VotesAgree` | internal/safenet/safenet.go:495-541 | on every run of the oracle: one entry for each commit, in order, which shows its reveal if there is one, and the counts that the oracle keeps |
| `OracleArbitration.ArbitrationAgrees` | internal/safenet/safenet.go:557-624 | on every run, for every request that was frozen: the arbitration is accepted, with the outcome, record and context of that run |
| `OracleArbitration.Accepted` | internal/safenet/safenet.go:543-624 | for any logs: what is accepted has the oracle's state as its outcome's, the frozen block a timeout before the deadline, and a record if and only if it is settled, of a log with that outcome |
| `OraclePending.PendingAgrees` | internal/safenet/safenet.go:149-210 | on every run, as of any later block: scanning the last timeout blocks finds exactly the disputes that the oracle has as frozen with a deadline that has not passed, each once, by deadline |
| `OraclePending.SortSorts` | internal/safenet/safenet.go:208-208 | the disputes are sorted by deadline, for any logs |
| `OraclePending.SortIsStable` | internal/safenet/safenet.go:208-208 | the disputes of each deadline are the same ones, in the same order |
| `OracleVotes.VotesHoldOnEachRun` | internal/safenet/safenet.go:495-541 | what every step of the oracle keeps: the votes read from its logs, its own record of them, and the commits and reveals of the run agree |
| `OracleArbitration.HoldsOnEachRun` | internal/safenet/safenet.go:553-624 | what every step of the oracle keeps: the logs of a request's arbitration are none, or those of its one freeze and settlement, in the blocks that are scanned |
| `OracleQueries.QueryIsSelection` | internal/ethrpc/logs.go:18-20 | for logs in block order, one query of a range gives what its filter selects of all of the logs |
| `OracleQueries.QueryVotes` | internal/safenet/safenet.go:263-269 | end to end: with a node that answers truthfully or refuses, in chunks, the votes of the run that pass the check of their counts, or an error of the node |
| `OracleQueries.QueryArbitration` | internal/safenet/safenet.go:272-281 | end to end: the arbitration of the run, or an error of the node |
| `OracleQueries.QueryPending` | internal/safenet/safenet.go:169-210 | end to end: exactly the disputes that await a ruling, each once, by deadline, or an error of the node |
| `OracleRulings.RunRulings` | internal/safenet/safenet.go:115-134 | the loop computes the list that the theorems are about |
| `OracleRulings.Rulings` | internal/safenet/safenet.go:110-143 | the requests are listed, and each is read, in order; the call fails if the block is past the latest one, or a read fails |
| `OracleRulings.ReadsEachInOrder` | internal/safenet/safenet.go:137-142 | the requests are those of the rulings, in order, and there is an error if and only if one cannot be read |
| `OracleRulings.RulingsAgree` | internal/safenet/safenet.go:103-143 | on every run: exactly the requests ruled on or marked out of scope in the blocks, in order, each once |
| `OracleRulings.SettledForGood` | internal/safenet/safenet.go:110-114 | once a request is settled, its record and its logs never change |
| `OracleRulings.RulingReadsTheSame` | internal/safenet/safenet.go:110-114 | once a request is settled, its record, its votes and its arbitration read the same, whatever happens after, and as of whatever later block; and all of the request does if and only if the oracle has the same Charter name and commit window as of both blocks |
| `OracleRulings.RuledStays` | internal/safenet/safenet.go:103-108 | which requests were ruled on in some blocks does not change after them |
| `Rules.RunCitedRules` | internal/safenet/rules.go:18-27 | the identifiers in the parts of a reason, each once, in the order of first citation |
| `Rules.RunDisputedRules` | internal/safenet/rules.go:31-44 | the identifiers in the reasons of all DENIED votes, each once, in the order of first citation, although repeats are dropped vote by vote first |
| `RulesTheorems.SplitIsParts` | internal/safenet/rules.go:20-20 | no part of a reason has a comma in it, and the parts with commas between them are the reason |
| `RulesTheorems.PartsAreUnique` | internal/safenet/rules.go:20-20 | there is only one such list of parts |
| `RulesTheorems.CitedExactly` | internal/safenet/rules.go:18-27 | a rule is cited if and only if it is a stretch of the reason between commas or its ends, trimmed, and an identifier; each once, in the order of their first places |
| `RulesTheorems.DisputedExactly` | internal/safenet/rules.go:31-44 | and the rules of votes are those of the DENIED ones, in the order of their first places by vote and position |
| `Proposals.FindProposal` | internal/safenet/safenet.go:355-392 | the loop finds the first proposal with the request's ID, rejects one whose transaction has another hash, and gives it the time of its block, or an error if that is not read |
| `Proposals.DecodeProposal` | internal/safenet/safenet.go:460-491 | the nested tuple is decoded with the shared error, and an operation past a delegate call is rejected |
| `Proposals.FoundIsBound` | internal/safenet/safenet.go:216-218 | whatever the logs, what is found hashes to the request's ID, and its transaction to the hash in the log |
| `Proposals.FoundIsUnique` | internal/safenet/safenet.go:216-218 | two proposals found for a request are the same, or show a collision of the hash function |
| `Proposals.EncodedProposalIsFound` | internal/safenet/safenet.go:355-392 | an ABI encoded proposal with the request's ID is found, after any logs of other requests |
| `SafeTxHash.HashWords` | internal/safenet/hash.go:55-61 | the loop hashes the concatenation of the words |
| `Eip712.TransactionIsTypedData` | internal/safenet/hash.go:22-40 | the hash is the one that section "Definition of hashStruct" of EIP-712 defines of the SafeTx struct, whose members have the transaction's fields of their names, in the domain of the Safe and its chain |
| `Eip712.RequestIsTypedData` | internal/safenet/hash.go:43-53 | and so is a request's ID, of the TransactionProposal struct in the domain of the Consensus contract |
| `SafeTxHash.HashBindsTransaction` | internal/safenet/hash.go:22-40 | two transactions in range with the same hash have the same chain, Safe and fields, or show a collision |
| `SafeTxHash.RequestIdBindsProposal` | internal/safenet/hash.go:43-53 | two proposals with the same request ID are the same, or show a collision |
| `Executions.CheckMatches` | internal/executions/executions.go:215-225 | true if and only if no amount is missing or out of range, the operation is valid and the hash is the one wanted |
| `Executions.DecodeFields` | internal/executions/executions.go:176-194 | the nine fields, with an operation past a delegate call marked invalid |
| `Executions.DecodeCall` | internal/executions/executions.go:199-210 | nothing for another selector or malformed arguments |
| `Executions.DecodeEvent` | internal/executions/executions.go:161-170 | the fields, and the nonce from the first word of the additional information |
| `ExecutionsTheorems.EventDecodes` | internal/executions/executions.go:161-170 | the data that SafeL2 logs of a transaction decodes to the transaction, with its nonce |
| `LogTheorems.InfoStartsWithNonce` | internal/executions/executions.go:161-170 | the nonce is the first word of the additional information, whatever follows it, and nothing is read if that is shorter than a word |
| `Executions.CallsTo` | internal/executions/decode.go:171-182 | appends the calls to the Safe in the order that they start, without those in reverted frames |
| `Executions.ExecutionDecoder.Nonce` | internal/executions/decode.go:69-89 | the nonce is worked out from the number of executions from this one on, and is asked for once in all |
| `Executions.ExecutionDecoder.OfCalldata` | internal/executions/decode.go:94-113 | the candidate of a call to the Safe, from a cache for which no transaction is asked for twice |
| `Executions.ExecutionDecoder.OfTrace` | internal/executions/decode.go:117-137 | the first candidate that matches, from a cache for which no trace is asked for twice |
| `Executions.ExecutionDecoder.Decode` | internal/executions/decode.go:36-66 | the sources in order, whatever was read before |
| `Executions.Find` | internal/executions/executions.go:96-132 | each execution in the logs, in order, with what the sources report for it |
| `LogTheorems.ExecutionsAreListed` | internal/executions/executions.go:104-155 | of any logs, exactly the ones of an execution that are not removed, in either form, are listed, once each and in order, with what they say |
| `LogTheorems.EventsAreListed` | internal/executions/executions.go:112-123 | of any logs, the candidates of an onchain transaction are exactly the readable ones of its logs that are not removed, in order |
| `SourcesTheorems.ReportedExactly` | internal/executions/decode.go:36-66 | for any answers of the sources: what is reported is the transaction of the first of events, calldata, trace and service that has one with the hash, the first one of it, and nothing if and only if none has |
| `SourcesTheorems.MatchesExactly` | internal/executions/executions.go:215-225 | a candidate matches if and only if it is a transaction with uint256 amounts, a call or a delegate call, and the hash |
| `SourcesTheorems.OtherOperationsNeverMatch` | internal/executions/executions.go:187-193 | calldata with an operation past a delegate call never matches, also if the low byte of the operation is one |
| `ExecutionsTheorems.ReportedMatches` | internal/executions/executions.go:19-24 | whatever the sources answer, what is reported has the hash that the Safe logged |
| `ExecutionsTheorems.SourcesAgree` | internal/executions/executions.go:19-24 | two reports of a hash, by any sources, are of the same transaction, or show a collision |
| `ExecutionsTheorems.CanonicalCallDecodes` | internal/executions/executions.go:199-210 | the canonical calldata of every valid transaction decodes to it |
| `ExecutionsTheorems.DirectCallIsReported` | internal/executions/decode.go:94-113 | given its nonce, a direct call is always reported, from its calldata unless an event matches |
| `ExecutionsTheorems.TracedCallIsReported` | internal/executions/decode.go:117-137 | given its nonce, so is a call anywhere in a trace that was not undone |
| `ExecutionsTheorems.WrongNonceLoses` | internal/executions/decode.go:45-55 | with any nonce but the one that the transaction with the logged hash has, neither calldata nor trace reports anything, or there is a collision |
| `SafeNonce.InOrderIffNoNesting` | internal/executions/decode.go:45-47 | after any state without an open execution, the logs are in the order of the nonces if and only if no execution begins while another is open |
| `SafeNonce.NonceByPlace` | internal/executions/decode.go:45-47 | after any state without an open execution, the nonce of each logged execution is the one that its place gives, less those that began after it and were logged before it, plus those that began before it and were logged after it |
| `SafeSearch.LogsListExecutions` | internal/executions/executions.go:137-155 | for every run of a Safe, in the log format of either version: the executions read from its logs are the run's, with their hashes, outcomes and payments |
| `SafeSearch.SearchListsExecutions` | internal/executions/executions.go:96-132 | a search of any range of blocks of any run lists exactly the executions logged in them, in order, each with the hash of its transaction |
| `SafeSearch.NoncesRightIffNoNesting` | internal/executions/decode.go:45-47 | for a search of any blocks up to that of the nonce's read, the nonces worked out are the ones used if and only if none of the searched executions began while another was open, whatever happened before those blocks |
| `SafeSearch.NonceRightIffBalanced` | internal/executions/decode.go:69-89 | for each execution of a search: the nonce worked out is the one used if and only if as many of the searched ones began before it and were logged after it as began after it and were logged before it |
| `SafeSearch.NestedPairIsSwapped` | internal/executions/decode.go:45-47 | after any state without an open execution, one execution inside another swaps their nonces |
| `SafeSearch.NestedPairIsLost` | internal/executions/decode.go:45-55 | and then neither is reported from calldata or traces, whatever those are, or there is a collision |
| `SafeSearch.EventIsReported` | internal/executions/decode.go:36-43 | each execution that SafeL2 logged is reported from its event, with its own transaction, also if executions are nested |
| `SafeSearch.DirectCallNeedsNonce` | internal/executions/decode.go:45-55 | without events and the service, a direct call is reported if and only if the nonce worked out for it is the one used, or there is a collision |
| `SafeSearch.DirectCallReportedIffBalanced` | internal/executions/decode.go:36-66 | of any run, without events and the service, exactly the direct calls that are balanced in that way are reported, or there is a collision |
| `SafeSearch.DirectCallsAreDecoded` | internal/executions/decode.go:45-55 | in every run with no nesting in the searched blocks, each direct call is reported with its own transaction |
| `SafeSearch.Search` | internal/executions/executions.go:96-132 | end to end, through the chunked scan: an error of the node, or each execution logged in the blocks, in order, with what is reported for it |
| `ExecutionsTheorems.OfferedExactly` | internal/executions/decode.go:168-182 | a trace offers exactly the calldata that paths without reverted frames lead to, of calls to the Safe, in the order that the calls start |
| `SafeSettings.Reader.Word` | internal/safesettings/safesettings.go:90-97 | a read after an error is zero and reads nothing |
| `SafeSettings.Reader.List` | internal/safesettings/safesettings.go:113-132 | terminates on every storage, and succeeds if and only if following the links does |
| `SafeSettings.Reader.Read` | internal/safesettings/safesettings.go:62-79 | the settings if and only if each slot and both lists can be read |
| `SafeSettings.ListIsChain` | internal/safesettings/safesettings.go:109-132 | a list is read if and only if the first link is zero, or the links lead from the sentinel back to it through at most 1024 entries, none of them zero; and it is that chain |
| `SafeSettings.ListHasNoRepeats` | internal/safesettings/safesettings.go:113-132 | no entry is repeated, zero, or the sentinel |
| `SafeSettings.MappingSlotIsStandard` | internal/safesettings/safesettings.go:139-146 | the slot of an entry is the hash of the key and the mapping's slot as words, as Solidity lays out storage |
| `SafeSettings.AddressIsLow` | internal/safesettings/safesettings.go:98-101 | an address is the low 160 bits of its slot |
| `SafeSettings.SettingsShowFields` | internal/safesettings/safesettings.go:62-73 | the singleton, the owner count, the threshold and the nonce are read from slots 0, 3, 4 and 5, and the other fields from their own slots, as the numbers and addresses that the Safe holds there |
| `SafeLists.RunHolds` | internal/safesettings/safesettings.go:109-112 | what every setup, addition, removal and replacement of an entry keeps: the links lead through the entries in order, nothing else has a link, and the count is their number |
| `SafeLists.ListReadsBack` | internal/safesettings/safesettings.go:109-132 | on every run of changes, the list reads back as the entries that they leave, in order, if and only if there are at most 1024 |
| `SafeLists.SettingsShowOwners` | internal/safesettings/safesettings.go:62-79 | the owners that are read are those that the changes leave, and as many as are counted |
| `SafeLists.SettingsShowModules` | internal/safesettings/safesettings.go:62-79 | and so are the modules |
| `Corpus.RunRules` | internal/corpus/corpus.go:93-101 | the rules of the document, each once, in the order of first citation |
| `Corpus.Markdown` | internal/corpus/corpus.go:106-183 | the buffer holds the header, the report and the document |
| `Corpus.ParseHeader` | internal/corpus/corpus.go:214-235 | the tags of the lines up to the closing one, or an error at a line that is not a tag |
| `Corpus.Tags` | internal/corpus/corpus.go:198-211 | the tags of the header and of the document, which has none if its header is malformed |
| `CorpusTheorems.FileReadsBack` | internal/corpus/corpus.go:106-211 | for every entry, with any Charter name, reasons, context and document: the tags of its file are the eight of its header, and its document's, and the cut at the first marker gives the document verbatim |
| `ReportTheorems.ProposalShows` | internal/corpus/corpus.go:127-138 | reading the value at each name in the section of the proposal gives the proposal's value of that name |
| `ReportTheorems.TransactionShows` | internal/corpus/corpus.go:140-152 | and in the section of the Safe transaction |
| `ReportTheorems.VotesShow` | internal/corpus/corpus.go:155-165 | each vote is a line, in order, with its quoted reason if it has one |
| `ReportTheorems.RulingShows` | internal/corpus/corpus.go:167-176 | and in the section of the ruling, with the context only if it is a reference |
| `ReportTheorems.ReferenceExactly` | internal/corpus/corpus.go:70-76 | a context is a reference if and only if it is a CID, or one after "ipfs://" |
| `ReportTheorems.SectionsFollow` | internal/corpus/corpus.go:123-176 | the sections follow each other in order, each after its title |
| `CorpusTheorems.ContextIsHarmless` | internal/corpus/corpus.go:70-76 | a context is only printed if it is a CID, in which no line can start with "<" |
| `CorpusTheorems.FrontIsHarmless` | internal/corpus/corpus.go:106-180 | no line before the document can start with "<" |
| `CorpusTheorems.FilesIdentify` | internal/corpus/corpus.go:106-183 | equal files are of rulings with the same header values and document |
| `IndexCorpus.Disk.Check` | internal/cli/index.go:98-113 | the files to write, or a refusal if one is there with other contents |
| `IndexCorpus.Disk.WriteFiles` | internal/cli/index.go:114-121 | the files are written in order, up to where the run is stopped |
| `IndexCorpus.Disk.Run` | internal/cli/index.go:36-121 | the outcome and the files of a run, failed or stopped ones included |
| `IndexCorpusTheorems.RunsKeep` | internal/cli/index.go:98-121 | after every sequence of runs, stopped ones included: the index never covers a ruling whose file is missing or different, other files that were there are unchanged, and the index does not go back |
| `IndexCorpusTheorems.RerunIsUninterrupted` | internal/cli/index.go:98-121 | a run after any failed and stopped ones completes if and only if it would have without them, and leaves the same files |
| `IndexCorpusTheorems.ConflictChangesNothing` | internal/cli/index.go:98-113 | a file with other contents fails the run before anything is written |
| `IndexRulings.RulingsAreValid` | internal/safenet/safenet.go:103-114 | on every run of the oracle, no two rulings have the same file, as each request is ruled on once |
| `IndexRulings.DueIsFixed` | internal/safenet/safenet.go:110-114 | the rulings of some blocks, and the contents of their files, are the same as of whatever later block they are read, if the Charter name and the commit window are |
| `IndexRulings.LiveRunsKeep` | internal/cli/index.go:98-121 | the index never covers a missing or different ruling, on every run of the oracle, when each run of the command sees the rulings by then and reads their requests then, while the Charter name and the commit window stay |
| `IndexRulings.LiveRerunIsUninterrupted` | internal/cli/index.go:98-121 | and a last run completes if and only if it would have without the others, and leaves the same files |
| `IndexRulings.ChangedParametersConflict` | internal/cli/index.go:98-113 | where files show the Charter name: if it changes after a stopped run left the file of a ruling, each later run over that ruling fails and writes nothing, although nothing about the request changed |

## Left out

- ScanLogs.Scan: requires that no end of a chunk that the scan can come to wraps; what happens otherwise is said by RightIffAllAdvance and WrappedScanIsWrong. The queries of the oracle's logs require that the last block plus 10,000 fits in 64 bits.
- SolAbiTheorems.RoundTrip: an array of addresses is encoded, but the decoder has no accessor for it, so nothing is read back; the encoding is below 2^64 bytes, as all of Go's memory is.
- MultiSendTheorems.DepthBound: the depth is counted in nested calls of the expander, as a function of the data; the stack itself is not modelled.
- IndexCorpusTheorems.RerunIsUninterrupted: the runs before the last one are to its block or an earlier one, as a run to a later block moves the index past it.
- The text of errors, warnings, and what a caller prints: an error is Err.
- HTTP, JSON-RPC and JSON, retries, gateways, ENS, IPFS, Sourcify, and the Safe Transaction Service: sources are functions that may answer or fail.
- Command-line flags, usage text, tables, configuration, and the output of the index command without -w.
- Keccak-256, SHA-256, base32, regular expressions, quoting and trimming: parameters, with the properties that are used.
- The float arithmetic of estimate: the estimator is arbitrary, since the result is clamped.
- The gas argument for the limit of 2^24 bytes of data: taken as the contract's rule.
- The Solidity contracts themselves, other than the step rules above.
- The concrete addresses and code hashes of deployments, and the tables of functions and events: maps, a parameter, and distinct constants.
- The fields of a request that are only copied from the oracle's record (fees, bonds, sponsor), its fee token, and the check of its PROPOSER; ARBITRATION_TIMEOUT is fixed.
- Components.RunGasRefund: requires that a refund in a token is not negative, as solabi.Uint panics for it; other amounts out of range are computed with.
- MultiSendRoundTrip.PackTree: packs nothing for a negative value, where the original panics; every theorem requires values in range.

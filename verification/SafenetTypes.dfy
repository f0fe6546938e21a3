// The types of internal/safenet/types.go that the readers of the oracle's logs use.
module SafenetTypes {
  import opened Wrappers
  import opened EthTypes

  // SentinelOracleRequest.State, by its number. The source's State is a uint8.
  type State = Byte

  const STATE_PENDING: State := 1
  const STATE_FROZEN: State := 2
  const STATE_APPROVED: State := 3
  const STATE_DENIED: State := 4
  const STATE_TIMED_OUT: State := 5

  datatype Vote = Pending | Approved | Denied

  datatype Commitment = Commitment(sentinel: Address, bond: nat, vote: Vote, reason: Bytes, rules: seq<Bytes>)

  datatype Outcome = PendingOutcome | Secure | Insecure | OutOfScope | TimedOut

  datatype Record = Record(block: nat, txHash: Word)

  datatype Arbitration = Arbitration(
    frozenBlock: nat, deadline: nat, outcome: Outcome, slashed: nat, context: Bytes, record: Option<Record>)

  datatype Dispute = Dispute(id: Word, frozenBlock: nat, deadline: nat)
}

// The calls that a Safe makes: internal/checks/transaction.go, and the MultiSend
// deployments that the expander knows.
module Calls {
  import opened EthTypes

  const CALL: Byte := 0
  const DELEGATE_CALL: Byte := 1

  // Where a call comes from in its transaction.
  datatype CallKind = Root | Batched | Refund

  // A value is a big.Int, so a transaction's own may be any integer.
  datatype Call = Call(to: Address, value: int, data: Bytes, operation: Byte, kind: CallKind)

  datatype MultiSend = MultiSend(version: string, callOnly: bool)

  type MultiSends = map<Address, MultiSend>

  // A Safe transaction. An amount that a request read from a file lacks is None
  // in the model of components, which takes a transaction only with all of them.
  datatype SafeTransaction = SafeTransaction(
    chainId: int, safe: Address, to: Address, value: int, data: Bytes, operation: Byte,
    safeTxGas: int, baseGas: int, gasPrice: int, gasToken: Address, refundReceiver: Address, nonce: int)
}

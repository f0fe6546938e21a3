// The components of a Safe transaction that the checks judge, of
// internal/checks/transaction.go, and the labels that internal/checks/calls.go
// reports its calls with.
module Components {
  import opened Wrappers
  import opened EthTypes
  import opened SolAbi
  import opened Calls
  import opened MultiSendExpander

  // transfer(address,uint256).
  const TRANSFER: Bytes := [0xa9, 0x05, 0x9c, 0xbb]

  // A Safe transaction as a request has it, where any amount may be missing.
  datatype Request = Request(
    safe: Address, to: Address, data: Bytes, operation: Byte, gasToken: Address, refundReceiver: Address,
    chainId: Option<int>, value: Option<int>, safeTxGas: Option<int>, baseGas: Option<int>, gasPrice: Option<int>,
    nonce: int, safeBlock: nat)
  {
    predicate HasAmounts() {
      chainId.Some? && value.Some? && safeTxGas.Some? && baseGas.Some? && gasPrice.Some?
    }

    function Transaction(): SafeTransaction
      requires HasAmounts()
    {
      SafeTransaction(chainId.value, safe, to, value.value, data, operation, safeTxGas.value, baseGas.value,
                      gasPrice.value, gasToken, refundReceiver, nonce)
    }
  }

  datatype SafeId = SafeId(address: Address, chainId: int)

  // The encoder of a token's refund panics for a negative amount.
  predicate Refundable(tx: SafeTransaction) {
    tx.gasPrice == 0 || tx.gasToken == ZERO_ADDRESS || 0 <= (tx.safeTxGas + tx.baseGas) * tx.gasPrice
  }

  function RefundAmount(tx: SafeTransaction): (amount: int)
    ensures amount < UINT256
  {
    var amount := (tx.safeTxGas + tx.baseGas) * tx.gasPrice;
    if amount > UINT256 - 1 then UINT256 - 1 else amount
  }

  function GasRefund(tx: SafeTransaction): Option<Call>
    requires Refundable(tx)
  {
    if tx.gasPrice == 0 then None
    else if tx.gasToken == ZERO_ADDRESS then
      Some(Call(tx.refundReceiver, RefundAmount(tx), [], CALL, Refund))
    else
      Some(Call(tx.gasToken, 0, CallData(TRANSFER, [AddressValue(tx.refundReceiver), UintValue(RefundAmount(tx))]), CALL,
                Refund))
  }

  function ComponentCalls(multiSends: MultiSends, tx: SafeTransaction): seq<Call>
    requires Refundable(tx)
  {
    ExpandTransactionCalls(multiSends, tx) + match GasRefund(tx) case None => [] case Some(refund) => [refund]
  }

  // The refund, with the amount that the source updates in place.
  method RunGasRefund(tx: SafeTransaction) returns (refund: Option<Call>)
    requires Refundable(tx)
    ensures refund == GasRefund(tx)
  {
    if tx.gasPrice == 0 { return None; }
    var amount := tx.safeTxGas + tx.baseGas;
    amount := amount * tx.gasPrice;
    if amount > UINT256 - 1 {
      amount := UINT256 - 1;
    }
    if tx.gasToken == ZERO_ADDRESS {
      return Some(Call(tx.refundReceiver, amount, [], CALL, Refund));
    }
    var args := [AddressValue(tx.refundReceiver), UintValue(amount)];
    var encoded := EncodeTuple(args);
    return Some(Call(tx.gasToken, 0, TRANSFER + encoded, CALL, Refund));
  }

  // The calls of a request's transaction, or an error if an amount is missing.
  method RunComponents(multiSends: MultiSends, request: Request) returns (calls: Result<seq<Call>>)
    requires request.HasAmounts() ==> Refundable(request.Transaction())
    ensures calls == if request.HasAmounts() then Ok(ComponentCalls(multiSends, request.Transaction())) else Err
  {
    var amounts := [request.chainId, request.value, request.safeTxGas, request.baseGas, request.gasPrice];
    for i := 0 to 5
      invariant forall k :: 0 <= k < i ==> amounts[k].Some?
    {
      if amounts[i].None? {
        assert !request.HasAmounts();
        return Err;
      }
    }
    assert amounts[0].Some? && amounts[1].Some? && amounts[2].Some? && amounts[3].Some? && amounts[4].Some?;
    var tx := request.Transaction();
    var own := ExpandTransactionCalls(multiSends, tx);
    var refund := RunGasRefund(tx);
    return Ok(if refund.Some? then own + [refund.value] else own + []);
  }

  // What a reported root call stands for, if it isn't the transaction's own.
  datatype Placeholder = Own | RevertingPlaceholder | EmptyPlaceholder

  function Label(tx: SafeTransaction, c: Call): Placeholder {
    if c.kind != Root || c == RootCall(tx) then Own
    else if c == RevertingMultiSend(c.to) then RevertingPlaceholder
    else if c == EmptyMultiSend(c.to) then EmptyPlaceholder
    else Own
  }
}

// The shape of the calls that checks judge, and what their labels mean.
module ComponentsTheorems {
  import opened Wrappers
  import opened EthTypes
  import opened SolAbi
  import opened SolAbiTheorems
  import opened Calls
  import opened MultiSendExpander
  import opened MultiSendTheorems
  import opened MultiSendRoundTrip
  import opened Components

  // The data of the placeholder for a MultiSend that makes no calls isn't empty.
  lemma EmptyMultiSendData()
    ensures |EmptyMultiSend(ZERO_ADDRESS).data| == 68
    ensures forall to: Address :: EmptyMultiSend(to).data == EmptyMultiSend(ZERO_ADDRESS).data
  {
    var parts := Parts([BytesValue([])]);
    assert parts[1..] == [];
  }

  // The placeholders are what they stand for: expanding one to a MultiSend reverts,
  // or makes no calls.
  lemma {:induction false} PlaceholdersExpand(multiSends: MultiSends, safe: Address, to: Address)
    requires to in multiSends
    ensures Expand(multiSends, safe, RevertingMultiSend(to)) == Reverts
    ensures Expand(multiSends, safe, EmptyMultiSend(to)) == Expanded([])
  {
    EmptyMultiSendData();
    BatchRoundTrip(multiSends, safe, Batch(to, 0, []), Root);
  }

  // A transaction that reverts is judged as a call with no data, and one that makes no
  // calls as a delegate call whose bytes are empty. Neither of them has a value.
  lemma PlaceholdersAre(multiSends: MultiSends, tx: SafeTransaction)
    ensures var e, calls := Expand(multiSends, tx.safe, RootCall(tx)), ExpandTransactionCalls(multiSends, tx);
            && (e.Reverts? ==> calls == [Call(tx.to, 0, [], CALL, Root)])
            && (e == Expanded([]) ==>
                  && |calls| == 1 && calls[0] == Call(tx.to, 0, calls[0].data, DELEGATE_CALL, Root)
                  && |calls[0].data| == 68 && calls[0].data[..4] == MULTI_SEND
                  && ReadBytes(calls[0].data[4..], 0) == Some([]))
            && (e.Expanded? && e.calls != [] ==> calls == e.calls)
  {
    EmptyMultiSendData();
    var values := [BytesValue([])];
    SmallRoundTrip(values);
    assert DecodesAt(Encode(values), 0, values[0]);
    assert CallData(MULTI_SEND, values)[4..] == Encode(values);
  }

  // The calls are the transaction's own, a placeholder for it, or the calls of a
  // MultiSend, followed by the refund exactly when the gas price isn't zero.
  lemma CallsShape(multiSends: MultiSends, tx: SafeTransaction)
    requires Refundable(tx)
    ensures var calls, own := ComponentCalls(multiSends, tx), ExpandTransactionCalls(multiSends, tx);
            && ((|own| == 1 && own[0].kind == Root) || AllBatched(own))
            && calls[..|own|] == own
            && (if tx.gasPrice == 0 then calls == own else |calls| == |own| + 1 && calls[|own|].kind == Refund)
  {
    if Expand(multiSends, tx.safe, RootCall(tx)).Expanded? {
      ExpandShape(multiSends, tx.safe, RootCall(tx));
    }
  }

  // A root call that isn't the transaction's own is labelled as reverting exactly
  // when the transaction's call reverts, and as empty exactly when it makes no
  // calls. So the label of a call tells which of them it stands for.
  lemma {:induction false} LabelsAreRight(multiSends: MultiSends, tx: SafeTransaction, c: Call)
    requires Refundable(tx) && c in ComponentCalls(multiSends, tx)
    ensures c.kind == Root ==>
      var e := Expand(multiSends, tx.safe, RootCall(tx));
      && (Label(tx, c) == RevertingPlaceholder <==> e.Reverts? && c != RootCall(tx))
      && (Label(tx, c) == EmptyPlaceholder <==> e == Expanded([]) && c != RootCall(tx))
      && (Label(tx, c) == Own <==> c == RootCall(tx))
  {
    EmptyMultiSendData();
    CallsShape(multiSends, tx);
    if Expand(multiSends, tx.safe, RootCall(tx)).Expanded? {
      ExpandShape(multiSends, tx.safe, RootCall(tx));
    }
  }

  // ---- The refund -------------------------------------------------------------------

  // The gas amounts are uint256s, as those of a transaction that the Safe executes are.
  predicate GasInRange(tx: SafeTransaction) {
    0 <= tx.safeTxGas < UINT256 && 0 <= tx.baseGas < UINT256 && 0 <= tx.gasPrice < UINT256
  }

  lemma ProductsGrow(a: nat, b: nat, x: nat, y: nat)
    requires a <= b && x <= y
    ensures a * x <= b * y
  {
    assert a * x <= b * x <= b * y;
  }

  // What the Safe can refund for a transaction: for the gas it used, which is at most
  // safeTxGas, at a price of at most gasPrice, as long as it doesn't overflow.
  ghost predicate CanRefund(tx: SafeTransaction, amount: int)
    requires GasInRange(tx)
  {
    exists gasUsed: nat, price: nat :: IsRefund(tx, gasUsed, price, amount)
  }

  predicate IsRefund(tx: SafeTransaction, gasUsed: nat, price: nat, amount: int)
    requires GasInRange(tx)
  {
    gasUsed <= tx.safeTxGas && price <= tx.gasPrice && amount == (gasUsed + tx.baseGas) * price && amount < UINT256
  }

  // The synthetic refund is the largest that the transaction allows: no refund is
  // larger, and it is one itself unless it is capped.
  lemma RefundIsLargest(tx: SafeTransaction)
    requires GasInRange(tx)
    ensures forall amount :: CanRefund(tx, amount) ==> amount <= RefundAmount(tx)
    ensures CanRefund(tx, RefundAmount(tx)) || RefundAmount(tx) == UINT256 - 1
    ensures Refundable(tx) && (GasRefund(tx).None? <==> tx.gasPrice == 0)
  {
    forall amount | CanRefund(tx, amount) ensures amount <= RefundAmount(tx) {
      var gasUsed: nat, price: nat :| IsRefund(tx, gasUsed, price, amount);
      ProductsGrow(gasUsed + tx.baseGas, tx.safeTxGas + tx.baseGas, price, tx.gasPrice);
    }
    if RefundAmount(tx) != UINT256 - 1 {
      assert IsRefund(tx, tx.safeTxGas, tx.gasPrice, RefundAmount(tx));
    }
  }

  // A refund in tokens is a call whose data decodes to the receiver and the amount.
  lemma TokenRefundDecodes(tx: SafeTransaction)
    requires Refundable(tx) && tx.gasPrice != 0 && tx.gasToken != ZERO_ADDRESS
    ensures var c := GasRefund(tx).value;
            && c.to == tx.gasToken && c.value == 0 && TRANSFER <= c.data && c.operation == 0 && c.kind == Refund
            && ReadAddress(c.data[4..], 0) == Some(tx.refundReceiver)
            && ReadUint(c.data[4..], 1) == Some(RefundAmount(tx))
  {
    var values := [AddressValue(tx.refundReceiver), UintValue(RefundAmount(tx))];
    SmallRoundTrip(values);
    assert DecodesAt(Encode(values), 0, values[0]) && DecodesAt(Encode(values), 1, values[1]);
    assert GasRefund(tx).value.data[4..] == Encode(values);
  }

  // A refund in ether is a transfer of the amount to the receiver.
  lemma EtherRefundTransfers(tx: SafeTransaction)
    requires tx.gasPrice != 0 && tx.gasToken == ZERO_ADDRESS
    ensures var c := GasRefund(tx).value;
            && GasRefund(tx).Some? && c.to == tx.refundReceiver && c.value == RefundAmount(tx) && c.data == []
            && c.operation == 0 && c.kind == Refund
  {
  }

  // The amount of a refund: all of the gas at the full price, or the largest uint256.
  lemma RefundAmountIs(tx: SafeTransaction)
    ensures RefundAmount(tx) <= (tx.safeTxGas + tx.baseGas) * tx.gasPrice && RefundAmount(tx) < UINT256
    ensures RefundAmount(tx) == (tx.safeTxGas + tx.baseGas) * tx.gasPrice || RefundAmount(tx) == UINT256 - 1
  {
  }
}

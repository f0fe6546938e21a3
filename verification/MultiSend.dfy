// The MultiSend expander of internal/checks/multisend.go.
//
// Expand is the simple machine that the source's comment describes: it reads
// transactions from an infinite memory that holds the bytes followed by zeros,
// and steps while more than 32 bytes are left. ExpandMultiSendCall is the loop
// that copies into a fixed head and a fresh data buffer, proved to compute the
// same.
module MultiSendExpander {
  import opened Wrappers
  import opened EthTypes
  import opened SolAbi
  import opened Calls

  // multiSend(bytes).
  const MULTI_SEND: Bytes := [0x8d, 0x80, 0xff, 0x0a]

  const MAX_DATA_LENGTH := 0x100_0000

  // What a call expands to: the calls that the Safe makes, or a revert.
  datatype Expansion = Expanded(calls: seq<Call>) | Reverts

  // ---- The memory that transactions are read from --------------------------

  function At(t: Bytes, i: nat): Byte {
    if i < |t| then t[i] else 0
  }

  function Read(t: Bytes, at: nat, n: nat): (b: Bytes)
    ensures |b| == n
  {
    seq<Byte>(n, i requires 0 <= i => At(t, at + i))
  }

  // The length of b without its trailing zeros.
  function Stripped(b: Bytes): (n: nat)
    ensures n <= |b| && forall i :: n <= i < |b| ==> b[i] == 0
    ensures n > 0 ==> b[n - 1] != 0
  {
    if b == [] then 0 else if b[|b| - 1] != 0 then |b| else Stripped(b[..|b| - 1])
  }

  // Reading from at on leaves at most the bytes after at.
  lemma {:induction false} StrippedRead(t: Bytes, at: nat, n: nat)
    ensures Stripped(Read(t, at, n)) <= if Stripped(t) <= at then 0 else Stripped(t) - at
  {
    var b := Read(t, at, n);
    var s := Stripped(b);
    if s > 0 {
      assert b[s - 1] == At(t, at + s - 1) != 0;
    }
  }

  lemma {:induction false} SelectorIsStripped(data: Bytes)
    requires MULTI_SEND <= data
    ensures Stripped(data) >= 4
  {
    assert data[3] == MULTI_SEND[3] != 0;
  }

  // The transactions that a call to multiSend passes are after at least 37 bytes
  // of its data, the selector, the length, and at least a byte of the offset,
  // unless there are none.
  lemma TransactionsAreInData(data: Bytes, t: Bytes) returns (start: nat)
    requires 4 <= |data| && ReadBytes(data[4..], 0) == Some(t)
    ensures start + |t| <= |data| && t == data[start..start + |t|]
    ensures t != [] ==> 37 <= start
  {
    var args := data[4..];
    var offset := ReadUint64(args, 0).value;
    start := 4 + offset + 32;
    assert t == args[offset + 32..offset + 32 + |t|] == data[start..start + |t|];
    if offset == 0 {
      assert ReadUint64At(args, 0) == Some(0);
    }
  }

  lemma {:induction false} StrippedTransactions(data: Bytes, t: Bytes)
    requires MULTI_SEND <= data && ReadBytes(data[4..], 0) == Some(t)
    ensures Stripped(t) <= if Stripped(data) <= 37 then 0 else Stripped(data) - 37
    ensures Stripped(t) < Stripped(data)
  {
    SelectorIsStripped(data);
    var start := TransactionsAreInData(data, t);
    var s := Stripped(t);
    if s > 0 {
      assert data[start + s - 1] == t[s - 1] != 0;
    }
  }

  // ---- The machine ----------------------------------------------------------

  // The address that an address of a transaction means.
  function Resolve(ms: MultiSend, safe: Address, to: Address): Address {
    if to == ZERO_ADDRESS && ms.version == "1.5.0" then safe else to
  }

  predicate AllowedOperation(ms: MultiSend, operation: Byte) {
    operation <= DELEGATE_CALL && (ms.callOnly ==> operation == CALL)
  }

  function DataLength(t: Bytes, offset: nat): nat {
    ToNat(Read(t, offset + 53, 32))
  }

  predicate InvalidAt(ms: MultiSend, t: Bytes, offset: nat) {
    DataLength(t, offset) > MAX_DATA_LENGTH || !AllowedOperation(ms, At(t, offset))
  }

  function Next(t: Bytes, offset: nat): nat {
    offset + 85 + DataLength(t, offset)
  }

  // The call of the transaction at offset.
  function SubCall(ms: MultiSend, safe: Address, t: Bytes, offset: nat): Call {
    Call(Resolve(ms, safe, Read(t, offset + 1, 20)), ToNat(Read(t, offset + 21, 32)),
         Read(t, offset + 85, DataLength(t, offset)), At(t, offset), Batched)
  }

  // Whether c is a call to multiSend that the Safe makes the calls of.
  predicate RunsMultiSend(multiSends: MultiSends, c: Call) {
    && c.to in multiSends
    && MULTI_SEND <= c.data
    && c.operation == DELEGATE_CALL
    && ReadBytes(c.data[4..], 0).Some?
  }

  function Transactions(c: Call): Bytes
    requires MULTI_SEND <= c.data && ReadBytes(c.data[4..], 0).Some?
  {
    ReadBytes(c.data[4..], 0).value
  }

  // The calls before those of rest, or a revert.
  function Before(calls: seq<Call>, rest: Expansion): Expansion {
    match rest
    case Reverts => Reverts
    case Expanded(after) => Expanded(calls + after)
  }

  function Expand(multiSends: MultiSends, safe: Address, c: Call): Expansion
    decreases Stripped(c.data), 0, 0
  {
    if c.to !in multiSends then Expanded([c])
    else
      var ms := multiSends[c.to];
      if !(MULTI_SEND <= c.data) then Reverts
      else if c.operation == CALL && !ms.callOnly then Reverts
      else if c.operation != DELEGATE_CALL then Expanded([c])
      else
        match ReadBytes(c.data[4..], 0)
        case None => Expanded([c])
        case Some(t) =>
          StrippedTransactions(c.data, t);
          ExpandFrom(multiSends, safe, ms, t, 0)
  }

  // The calls of the transactions from offset on.
  function ExpandFrom(multiSends: MultiSends, safe: Address, ms: MultiSend, t: Bytes, offset: nat): Expansion
    decreases Stripped(t), 1, if offset <= |t| then |t| - offset else 0
  {
    if |t| - offset <= 32 then Expanded([])
    else if InvalidAt(ms, t, offset) then Reverts
    else
      StrippedRead(t, offset + 85, DataLength(t, offset));
      match Expand(multiSends, safe, SubCall(ms, safe, t, offset))
      case Reverts => Reverts
      case Expanded(calls) =>
        Before(calls, ExpandFrom(multiSends, safe, ms, t, Next(t, offset)))
  }

  // ---- The loop -------------------------------------------------------------

  // Go's copy: the bytes of src that fit in dst.
  method Copy(dst: array<Byte>, src: Bytes)
    modifies dst
    ensures forall i :: 0 <= i < dst.Length ==> dst[i] == if i < |src| then src[i] else old(dst[i])
  {
    var n := if |src| < dst.Length then |src| else dst.Length;
    for i := 0 to n
      invariant forall k :: 0 <= k < dst.Length ==> dst[k] == if k < i then src[k] else old(dst[k])
    {
      dst[i] := src[i];
    }
  }

  // A buffer of n zeros with the bytes of t from start on copied over.
  method Buffer(t: Bytes, start: nat, n: nat) returns (b: Bytes)
    ensures b == Read(t, start, n)
  {
    var buffer := new Byte[n](_ => 0);
    if start < |t| {
      Copy(buffer, t[start..]);
    }
    b := buffer[..];
    assert forall i :: 0 <= i < n ==> b[i] == At(t, start + i);
  }

  method ExpandMultiSendCall(multiSends: MultiSends, safe: Address, c: Call) returns (calls: seq<Call>, reverts: bool)
    ensures Outcome(calls, reverts) == Expand(multiSends, safe, c)
    decreases Stripped(c.data), 1
  {
    if c.to !in multiSends { return [c], false; }
    var ms := multiSends[c.to];
    if |c.data| < 4 || c.data[..4] != MULTI_SEND { return [], true; }
    if c.operation == CALL && !ms.callOnly { return [], true; }
    if c.operation != DELEGATE_CALL { return [c], false; }

    var d := new Decoder(c.data[4..]);
    var transactions := d.Bytes(0);
    if d.err.failed { return [c], false; }
    StrippedTransactions(c.data, transactions);
    calls, reverts := RunTransactions(multiSends, safe, ms, transactions, Stripped(c.data));
  }

  // The loop of expandMultiSendCall over the transactions of a call.
  method RunTransactions(multiSends: MultiSends, safe: Address, ms: MultiSend, transactions: Bytes, ghost bound: nat)
    returns (calls: seq<Call>, reverts: bool)
    requires Stripped(transactions) < bound
    ensures Outcome(calls, reverts) == ExpandFrom(multiSends, safe, ms, transactions, 0)
    decreases bound, 0
  {
    ghost var all := ExpandFrom(multiSends, safe, ms, transactions, 0);
    calls := [];
    var offset := 0;
    while |transactions| - offset > 32
      invariant all == Before(calls, ExpandFrom(multiSends, safe, ms, transactions, offset))
      decreases |transactions| - offset
    {
      var sub, next, invalid := DecodeTransaction(ms, safe, transactions, offset);
      ExpandStep(multiSends, safe, ms, transactions, offset, calls);
      if invalid { return [], true; }
      var subCalls, subReverts := ExpandMultiSendCall(multiSends, safe, sub);
      if subReverts { return [], true; }
      calls := calls + subCalls;
      offset := next;
    }
    reverts := false;
  }

  function Outcome(calls: seq<Call>, reverts: bool): Expansion {
    if reverts then Reverts else Expanded(calls)
  }

  lemma {:induction false} ExpandStep(
    multiSends: MultiSends, safe: Address, ms: MultiSend, t: Bytes, offset: nat, calls: seq<Call>)
    requires |t| - offset > 32
    ensures Before(calls, ExpandFrom(multiSends, safe, ms, t, offset))
         == if InvalidAt(ms, t, offset) then Reverts
            else match Expand(multiSends, safe, SubCall(ms, safe, t, offset))
                 case Reverts => Reverts
                 case Expanded(subCalls) =>
                   Before(calls + subCalls, ExpandFrom(multiSends, safe, ms, t, Next(t, offset)))
    ensures Stripped(SubCall(ms, safe, t, offset).data) <= Stripped(t)
  {
    StrippedRead(t, offset + 85, DataLength(t, offset));
    if !InvalidAt(ms, t, offset) && Expand(multiSends, safe, SubCall(ms, safe, t, offset)).Expanded? {
      BeforeBoth(calls, Expand(multiSends, safe, SubCall(ms, safe, t, offset)).calls,
                 ExpandFrom(multiSends, safe, ms, t, Next(t, offset)));
    }
  }

  lemma BeforeBoth(calls: seq<Call>, subCalls: seq<Call>, rest: Expansion)
    ensures Before(calls, Before(subCalls, rest)) == Before(calls + subCalls, rest) && Before([], rest) == rest
  {
    if rest.Expanded? {
      assert calls + (subCalls + rest.calls) == calls + subCalls + rest.calls && [] + rest.calls == rest.calls;
    }
  }

  // The part of the loop's body that decodes the transaction at offset: its call
  // and the offset of the next transaction, or whether it is invalid.
  method DecodeTransaction(ms: MultiSend, safe: Address, t: Bytes, offset: nat)
    returns (sub: Call, next: nat, invalid: bool)
    ensures invalid == InvalidAt(ms, t, offset)
    ensures !invalid ==> sub == SubCall(ms, safe, t, offset) && next == Next(t, offset)
  {
    sub, next := Call(ZERO_ADDRESS, 0, [], CALL, Batched), offset;
    var head := Buffer(t, offset, 85);
    HeadFields(t, offset, head);
    var dataLength := ToNat(head[53..85]);
    if dataLength >= UINT64 || dataLength > MAX_DATA_LENGTH { return sub, next, true; }
    var start := offset + |head|;
    var data := Buffer(t, start, dataLength);
    next := start + |data|;
    var operation := head[0];
    if operation > DELEGATE_CALL || (ms.callOnly && operation != CALL) { return sub, next, true; }
    var to: Address := head[1..21];
    if to == ZERO_ADDRESS && ms.version == "1.5.0" {
      to := safe;
    }
    sub := Call(to, ToNat(head[21..53]), data, operation, Batched);
    invalid := false;
  }

  lemma HeadFields(t: Bytes, offset: nat, head: Bytes)
    requires head == Read(t, offset, 85)
    ensures head[0] == At(t, offset)
    ensures head[1..21] == Read(t, offset + 1, 20)
    ensures head[21..53] == Read(t, offset + 21, 32)
    ensures head[53..85] == Read(t, offset + 53, 32)
  {
  }

  // ---- The calls of a transaction ------------------------------------------

  function RevertingMultiSend(to: Address): Call {
    Call(to, 0, [], CALL, Root)
  }

  function EmptyMultiSend(to: Address): Call {
    Call(to, 0, CallData(MULTI_SEND, [BytesValue([])]), DELEGATE_CALL, Root)
  }

  function RootCall(tx: SafeTransaction): Call {
    Call(tx.to, tx.value, tx.data, tx.operation, Root)
  }

  function ExpandTransactionCalls(multiSends: MultiSends, tx: SafeTransaction): (calls: seq<Call>)
    ensures calls != []
  {
    match Expand(multiSends, tx.safe, RootCall(tx))
    case Reverts => [RevertingMultiSend(tx.to)]
    case Expanded(calls) => if calls == [] then [EmptyMultiSend(tx.to)] else calls
  }
}

// The Safe transactions that a Safe executed: internal/executions. The node, the
// Safe Transaction Service and the hash function are parameters.
module Executions {
  import opened Wrappers
  import opened EthTypes
  import opened SolAbi
  import opened Calls
  import opened SafeTxHash
  import opened Rules

  const EXEC_TRANSACTION: Bytes := [0x6a, 0x76, 0x12, 0x02]

  // The operation of a candidate that the Safe would reject.
  const INVALID_OPERATION: Byte := 255

  datatype Source = EventSource | CalldataSource | TraceSource | ServiceSource

  datatype Event = ExecutionSuccess | ExecutionFailure | MultiSigTransaction | OtherEvent

  // A log of the Safe, with the topics that follow the one of its event.
  datatype Log = Log(
    block: nat, txHash: Word, logIndex: nat, event: Option<Event>, topics: seq<Word>, data: Bytes, removed: bool)

  datatype Execution = Execution(
    block: nat, txHash: Word, logIndex: nat, safeTxHash: Word, success: bool, payment: nat)

  // A Safe transaction of a source, which may lack an amount.
  datatype Candidate = Candidate(
    chainId: Option<int>, safe: Address, to: Address, value: Option<int>, data: Bytes, operation: Byte,
    safeTxGas: Option<int>, baseGas: Option<int>, gasPrice: Option<int>, gasToken: Address, refundReceiver: Address,
    nonce: Option<int>)

  // A call in the output of geth's callTracer.
  datatype CallFrame = CallFrame(isCall: bool, to: Option<Address>, input: Bytes, reverted: bool, calls: seq<CallFrame>)

  datatype Transaction = Transaction(to: Option<Address>, input: Bytes)

  // What the sources answer: the result of reading the Safe's nonce as of the last
  // block, the onchain transactions and their traces, and the service's transactions.
  datatype World = World(
    keccak: Hash, chainId: nat, nonceResult: Option<Bytes>, transaction: Word -> Option<Transaction>,
    trace: Word -> Option<CallFrame>, service: Option<Word -> Option<Candidate>>)

  // ---- Matching ------------------------------------------------------------------

  // The transaction that a candidate is, if it has each amount.
  function Complete(c: Candidate): Option<SafeTransaction> {
    if c.chainId.None? || c.value.None? || c.safeTxGas.None? || c.baseGas.None? || c.gasPrice.None? || c.nonce.None? then
      None
    else
      Some(SafeTransaction(
             c.chainId.value, c.safe, c.to, c.value.value, c.data, c.operation, c.safeTxGas.value, c.baseGas.value,
             c.gasPrice.value, c.gasToken, c.refundReceiver, c.nonce.value))
  }

  predicate IsMissingOrOversized(n: Option<int>) {
    n.None? || !IsUint256(n.value)
  }

  predicate Matches(keccak: Hash, c: Candidate, want: Word) {
    && Complete(c).Some? && InRange(Complete(c).value) && c.operation <= DELEGATE_CALL
    && SafeTransactionHash(keccak, Complete(c).value) == want
  }

  method CheckMatches(keccak: Hash, c: Candidate, want: Word) returns (ok: bool)
    ensures ok <==> Matches(keccak, c, want)
  {
    if c.operation > DELEGATE_CALL { return false; }
    var amounts := [c.chainId, c.value, c.safeTxGas, c.baseGas, c.gasPrice, c.nonce];
    for i := 0 to 6
      invariant forall k :: 0 <= k < i ==> !IsMissingOrOversized(amounts[k])
    {
      if IsMissingOrOversized(amounts[i]) {
        return false;
      }
    }
    assert !IsMissingOrOversized(amounts[0]) && !IsMissingOrOversized(amounts[1]) && !IsMissingOrOversized(amounts[2]);
    assert !IsMissingOrOversized(amounts[3]) && !IsMissingOrOversized(amounts[4]) && !IsMissingOrOversized(amounts[5]);
    return SafeTransactionHash(keccak, Complete(c).value) == want;
  }

  // ---- Decoding -----------------------------------------------------------------

  function OperationOf(x: nat): Byte {
    if x > DELEGATE_CALL then INVALID_OPERATION else x
  }

  // The fields in the first nine values of data, with no nonce.
  function ReadFields(data: Bytes, safe: Address, chainId: nat): Option<Candidate> {
    if || ReadAddress(data, 0).None? || ReadUint(data, 1).None? || ReadBytes(data, 2).None?
       || ReadUint64(data, 3).None? || ReadUint(data, 4).None? || ReadUint(data, 5).None? || ReadUint(data, 6).None?
       || ReadAddress(data, 7).None? || ReadAddress(data, 8).None? then
      None
    else
      Some(Candidate(
             Some(chainId), safe, ReadAddress(data, 0).value, Some(ReadUint(data, 1).value), ReadBytes(data, 2).value,
             OperationOf(ReadUint64(data, 3).value), Some(ReadUint(data, 4).value), Some(ReadUint(data, 5).value),
             Some(ReadUint(data, 6).value), ReadAddress(data, 7).value, ReadAddress(data, 8).value, None))
  }

  method DecodeFields(d: Decoder, safe: Address, chainId: nat) returns (c: Candidate)
    modifies d.err
    ensures d.err.failed == (old(d.err.failed) || ReadFields(d.data, safe, chainId).None?)
    ensures !d.err.failed ==> ReadFields(d.data, safe, chainId) == Some(c)
  {
    var to := d.Address(0);
    var value := d.Uint(1);
    var data := d.Bytes(2);
    var operation := d.Uint64(3);
    var safeTxGas := d.Uint(4);
    var baseGas := d.Uint(5);
    var gasPrice := d.Uint(6);
    var gasToken := d.Address(7);
    var refundReceiver := d.Address(8);
    var op: Byte := if operation > DELEGATE_CALL && !d.err.failed then INVALID_OPERATION else operation % 256;
    c := Candidate(
      Some(chainId), safe, to, Some(value), data, op, Some(safeTxGas), Some(baseGas), Some(gasPrice), gasToken,
      refundReceiver, None);
  }

  // The candidate in the calldata of a call to execTransaction.
  function CallCandidate(safe: Address, chainId: nat, input: Bytes): Option<Candidate> {
    if |input| < 4 || input[..4] != EXEC_TRANSACTION || ReadBytes(input[4..], 9).None? then None
    else ReadFields(input[4..], safe, chainId)
  }

  method DecodeCall(safe: Address, chainId: nat, input: Bytes) returns (c: Option<Candidate>)
    ensures c == CallCandidate(safe, chainId, input)
  {
    if |input| < 4 || input[..4] != EXEC_TRANSACTION { return None; }
    var d := new Decoder(input[4..]);
    var fields := DecodeFields(d, safe, chainId);
    var signatures := d.Bytes(9);
    if d.err.failed { return None; }
    return Some(fields);
  }

  // The candidate in the data of a SafeMultiSigTransaction log, whose additional
  // information starts with the nonce.
  function EventCandidate(safe: Address, chainId: nat, data: Bytes): Option<Candidate> {
    match ReadFields(data, safe, chainId)
    case None => None
    case Some(c) =>
      match ReadBytes(data, 10)
      case None => None
      case Some(info) => if |info| < 32 then None else Some(c.(nonce := Some(ToNat(info[..32]))))
  }

  method DecodeEvent(safe: Address, chainId: nat, data: Bytes) returns (c: Option<Candidate>)
    ensures c == EventCandidate(safe, chainId, data)
  {
    var d := new Decoder(data);
    var fields := DecodeFields(d, safe, chainId);
    var info := d.Bytes(10);
    if d.err.failed || |info| < 32 { return None; }
    return Some(fields.(nonce := Some(ToNat(info[..32]))));
  }

  // Safe 1.3.0 logs the hash and the payment as data, and later ones the hash as a
  // topic.
  function DecodeExecution(log: Log): Option<Execution> {
    var success := log.event == Some(ExecutionSuccess);
    if |log.topics| == 0 && |log.data| == 64 then
      Some(Execution(log.block, log.txHash, log.logIndex, log.data[..32], success, ToNat(log.data[32..])))
    else if |log.topics| == 1 && |log.data| == 32 then
      Some(Execution(log.block, log.txHash, log.logIndex, log.topics[0], success, ToNat(log.data)))
    else
      None
  }

  // ---- Traces --------------------------------------------------------------------

  // The calldata of the calls to safe in a frame, in the order that they start, but
  // not in calls that reverted.
  function CallsIn(frame: CallFrame, safe: Address): seq<Bytes>
    decreases frame, 0
  {
    if frame.reverted then []
    else (if IsCallTo(frame, safe) then [frame.input] else []) + CallsInAll(frame.calls, safe)
  }

  function CallsInAll(frames: seq<CallFrame>, safe: Address): seq<Bytes>
    decreases frames, 1
  {
    if frames == [] then [] else CallsIn(frames[0], safe) + CallsInAll(frames[1..], safe)
  }

  predicate IsCallTo(frame: CallFrame, safe: Address) {
    frame.isCall && frame.to == Some(safe)
  }

  method CallsTo(frame: CallFrame, safe: Address, inputs: seq<Bytes>) returns (all: seq<Bytes>)
    ensures all == inputs + CallsIn(frame, safe)
    decreases frame
  {
    all := inputs;
    if frame.reverted { return; }
    if IsCallTo(frame, safe) {
      all := all + [frame.input];
    }
    for i := 0 to |frame.calls|
      invariant all + CallsInAll(frame.calls[i..], safe) == inputs + CallsIn(frame, safe)
    {
      assert frame.calls[i..][0] == frame.calls[i] && frame.calls[i..][1..] == frame.calls[i + 1..];
      ghost var before := all;
      all := CallsTo(frame.calls[i], safe, all);
      assert before + CallsInAll(frame.calls[i..], safe) == all + CallsInAll(frame.calls[i + 1..], safe);
    }
  }

  // ---- Sources --------------------------------------------------------------------

  // The first of candidates that matches.
  function FirstMatching(keccak: Hash, candidates: seq<Candidate>, want: Word): Option<Candidate> {
    if candidates == [] then None
    else if Matches(keccak, candidates[0], want) then Some(candidates[0])
    else FirstMatching(keccak, candidates[1..], want)
  }

  // The candidate of the calldata of a call to the Safe, given its nonce.
  function CallMatching(w: World, safe: Address, input: Bytes, want: Word, nonce: nat): Option<Candidate> {
    match CallCandidate(safe, w.chainId, input)
    case None => None
    case Some(c) => if Matches(w.keccak, c.(nonce := Some(nonce)), want) then Some(c.(nonce := Some(nonce))) else None
  }

  function FirstCallMatching(w: World, safe: Address, inputs: seq<Bytes>, want: Word, nonce: nat): Option<Candidate> {
    if inputs == [] then None
    else
      match CallMatching(w, safe, inputs[0], want, nonce)
      case Some(c) => Some(c)
      case None => FirstCallMatching(w, safe, inputs[1..], want, nonce)
  }

  function InputsOf(w: World, safe: Address, txHash: Word): seq<Bytes> {
    match w.trace(txHash)
    case None => []
    case Some(root) => CallsIn(root, safe)
  }

  // The Safe's nonce as of the last block.
  function NonceNext(w: World): Option<nat> {
    match w.nonceResult
    case None => None
    case Some(result) => ReadUint(result, 0)
  }

  // The nonce that execution i of n used, if it is known.
  function NonceOf(w: World, n: nat, i: nat): Option<nat>
    requires i < n
  {
    match NonceNext(w)
    case None => None
    case Some(next) => if next < n - i then None else Some(next - (n - i))
  }

  function FromCalldata(w: World, safe: Address, e: Execution, nonce: nat): Option<Candidate> {
    match w.transaction(e.txHash)
    case None => None
    case Some(tx) => if tx.to != Some(safe) then None else CallMatching(w, safe, tx.input, e.safeTxHash, nonce)
  }

  function FromTrace(w: World, safe: Address, e: Execution, nonce: nat): Option<Candidate> {
    FirstCallMatching(w, safe, InputsOf(w, safe, e.txHash), e.safeTxHash, nonce)
  }

  function FromCalls(w: World, safe: Address, e: Execution, nonce: Option<nat>): Option<(Source, Candidate)> {
    if nonce.None? then None
    else
      match FromCalldata(w, safe, e, nonce.value)
      case Some(c) => Some((CalldataSource, c))
      case None =>
        match FromTrace(w, safe, e, nonce.value)
        case Some(c) => Some((TraceSource, c))
        case None => None
  }

  function FromService(w: World, want: Word): Option<(Source, Candidate)> {
    if w.service.None? then None
    else
      match w.service.value(want)
      case None => None
      case Some(c) => if Matches(w.keccak, c, want) then Some((ServiceSource, c)) else None
  }

  function EventsOf(events: map<Word, seq<Candidate>>, txHash: Word): seq<Candidate> {
    if txHash in events then events[txHash] else []
  }

  // What is reported for execution i: the transaction of the first source with one.
  function Reported(
    w: World, safe: Address, executions: seq<Execution>, events: map<Word, seq<Candidate>>, i: nat)
    : Option<(Source, Candidate)>
    requires i < |executions|
  {
    var e := executions[i];
    match FirstMatching(w.keccak, EventsOf(events, e.txHash), e.safeTxHash)
    case Some(c) => Some((EventSource, c))
    case None =>
      match FromCalls(w, safe, e, NonceOf(w, |executions|, i))
      case Some(r) => Some(r)
      case None => FromService(w, e.safeTxHash)
  }

  // Decodes executions, and keeps the nonce, transactions and traces that it has read.
  class ExecutionDecoder {
    const world: World
    const safe: Address
    const executions: seq<Execution>
    const events: map<Word, seq<Candidate>>
    // What was asked of the node, in order: reads of the nonce, and the onchain
    // transactions and traces.
    ghost var nonceReads: nat
    ghost var txsRead: seq<Word>
    ghost var tracesRead: seq<Word>
    var nonceRead: bool
    var nonceNext: Option<nat>
    var txs: map<Word, Option<Transaction>>
    var traces: map<Word, seq<Bytes>>

    constructor (world: World, safe: Address, executions: seq<Execution>, events: map<Word, seq<Candidate>>)
      ensures Valid()
      ensures this.world == world && this.safe == safe && this.executions == executions && this.events == events
    {
      this.world, this.safe, this.executions, this.events := world, safe, executions, events;
      nonceRead, nonceNext, txs, traces := false, None, map[], map[];
      nonceReads, txsRead, tracesRead := 0, [], [];
    }

    // What is kept is what the world answers, and nothing was asked twice, also if it
    // wasn't answered.
    ghost predicate Valid()
      reads this
    {
      && nonceReads == (if nonceRead then 1 else 0)
      && NoRepeats(txsRead) && (forall h :: h in txs <==> h in txsRead)
      && NoRepeats(tracesRead) && (forall h :: h in traces <==> h in tracesRead)
      && nonceNext == (if nonceRead then NonceNext(world) else None)
      && (forall h :: h in txs ==> txs[h] == world.transaction(h))
      && (forall h :: h in traces ==> traces[h] == InputsOf(world, safe, h))
    }

    method Nonce(i: nat) returns (nonce: Option<nat>)
      requires Valid() && i < |executions|
      modifies this
      ensures Valid() && nonce == NonceOf(world, |executions|, i)
      ensures nonceReads == 1
    {
      if !nonceRead {
        nonceRead, nonceReads := true, nonceReads + 1;
        match world.nonceResult {
          case None =>
          case Some(result) =>
            var d := new Decoder(result);
            var next := d.Uint(0);
            if !d.err.failed {
              nonceNext := Some(next);
            }
        }
      }
      if nonceNext.None? || nonceNext.value < |executions| - i { return None; }
      return Some(nonceNext.value - (|executions| - i));
    }

    method DecodeInput(input: Bytes, e: Execution, nonce: nat) returns (c: Option<Candidate>)
      ensures c == CallMatching(world, safe, input, e.safeTxHash, nonce)
    {
      var decoded := DecodeCall(safe, world.chainId, input);
      if decoded.None? { return None; }
      var candidate := decoded.value.(nonce := Some(nonce));
      var ok := CheckMatches(world.keccak, candidate, e.safeTxHash);
      return if ok then Some(candidate) else None;
    }

    method OfCalldata(e: Execution, nonce: nat) returns (c: Option<Candidate>)
      requires Valid()
      modifies this
      ensures Valid() && c == FromCalldata(world, safe, e, nonce)
    {
      if e.txHash !in txs {
        txsRead := txsRead + [e.txHash];
        txs := txs[e.txHash := world.transaction(e.txHash)];
      }
      var tx := txs[e.txHash];
      if tx.None? || tx.value.to != Some(safe) { return None; }
      c := DecodeInput(tx.value.input, e, nonce);
    }

    // The calldata that the trace of an onchain transaction offers.
    method TraceInputs(txHash: Word) returns (inputs: seq<Bytes>)
      requires Valid()
      modifies this
      ensures Valid() && inputs == InputsOf(world, safe, txHash)
    {
      if txHash in traces { return traces[txHash]; }
      inputs := [];
      match world.trace(txHash) {
        case None =>
        case Some(root) => inputs := CallsTo(root, safe, []);
      }
      assert [] + inputs == inputs;
      tracesRead := tracesRead + [txHash];
      traces := traces[txHash := inputs];
    }

    method FirstOf(inputs: seq<Bytes>, e: Execution, nonce: nat) returns (c: Option<Candidate>)
      ensures c == FirstCallMatching(world, safe, inputs, e.safeTxHash, nonce)
    {
      for i := 0 to |inputs|
        invariant FirstCallMatching(world, safe, inputs[i..], e.safeTxHash, nonce)
               == FirstCallMatching(world, safe, inputs, e.safeTxHash, nonce)
      {
        assert inputs[i..][0] == inputs[i] && inputs[i..][1..] == inputs[i + 1..];
        c := DecodeInput(inputs[i], e, nonce);
        if c.Some? { return; }
      }
      return None;
    }

    method OfTrace(e: Execution, nonce: nat) returns (c: Option<Candidate>)
      requires Valid()
      modifies this
      ensures Valid() && c == FromTrace(world, safe, e, nonce)
    {
      var inputs := TraceInputs(e.txHash);
      c := FirstOf(inputs, e, nonce);
    }

    method Decode(i: nat) returns (found: Option<(Source, Candidate)>)
      requires Valid() && i < |executions|
      modifies this
      ensures Valid() && found == Reported(world, safe, executions, events, i)
    {
      var e := executions[i];
      var logged := EventsOf(events, e.txHash);
      for k := 0 to |logged|
        invariant Valid()
        invariant FirstMatching(world.keccak, logged[k..], e.safeTxHash) == FirstMatching(world.keccak, logged, e.safeTxHash)
      {
        assert logged[k..][0] == logged[k] && logged[k..][1..] == logged[k + 1..];
        var ok := CheckMatches(world.keccak, logged[k], e.safeTxHash);
        if ok { return Some((EventSource, logged[k])); }
      }
      var nonce := Nonce(i);
      if nonce.Some? {
        var c := OfCalldata(e, nonce.value);
        if c.Some? { return Some((CalldataSource, c.value)); }
        c := OfTrace(e, nonce.value);
        if c.Some? { return Some((TraceSource, c.value)); }
      }
      if world.service.Some? {
        var c := world.service.value(e.safeTxHash);
        if c.Some? {
          var ok := CheckMatches(world.keccak, c.value, e.safeTxHash);
          if ok { return Some((ServiceSource, c.value)); }
        }
      }
      return None;
    }
  }

  // ---- Find --------------------------------------------------------------------------

  // The executions that logs list.
  function ExecutionsIn(logs: seq<Log>): seq<Execution> {
    if logs == [] then []
    else
      var before, log := ExecutionsIn(logs[..|logs| - 1]), logs[|logs| - 1];
      if log.removed || log.event.None? || log.event == Some(MultiSigTransaction) || DecodeExecution(log).None? then before
      else before + [DecodeExecution(log).value]
  }

  // The candidates that the logs of an onchain transaction have.
  function EventsIn(logs: seq<Log>, safe: Address, chainId: nat): map<Word, seq<Candidate>> {
    if logs == [] then map[]
    else
      var before, log := EventsIn(logs[..|logs| - 1], safe, chainId), logs[|logs| - 1];
      if log.removed || log.event != Some(MultiSigTransaction) then before
      else
        match EventCandidate(safe, chainId, log.data)
        case None => before
        case Some(c) => before[log.txHash := EventsOf(before, log.txHash) + [c]]
  }

  lemma TakeNext(logs: seq<Log>, k: nat)
    requires k < |logs|
    ensures logs[..k + 1] != [] && logs[..k + 1][..k] == logs[..k] && logs[..k + 1][k] == logs[k]
  {
  }

  // The executions of a scan, or its error, with what is reported for each.
  method Find(world: World, safe: Address, logs: Result<seq<Log>>)
    returns (executions: Result<seq<Execution>>, found: seq<Option<(Source, Candidate)>>)
    ensures executions.Err? <==> logs.Err?
    ensures executions.Ok? ==>
      && executions.value == ExecutionsIn(logs.value) && |found| == |executions.value|
      && forall i :: 0 <= i < |found| ==>
        found[i] == Reported(world, safe, executions.value, EventsIn(logs.value, safe, world.chainId), i)
  {
    if logs.Err? { return Err, []; }
    var scanned := logs.value;
    var listed: seq<Execution>, events: map<Word, seq<Candidate>> := [], map[];
    for k := 0 to |scanned|
      invariant listed == ExecutionsIn(scanned[..k]) && events == EventsIn(scanned[..k], safe, world.chainId)
    {
      TakeNext(scanned, k);
      var log := scanned[k];
      if log.removed || log.event.None? { continue; }
      if log.event == Some(MultiSigTransaction) {
        var c := DecodeEvent(safe, world.chainId, log.data);
        if c.Some? {
          events := events[log.txHash := EventsOf(events, log.txHash) + [c.value]];
        }
        continue;
      }
      var e := DecodeExecution(log);
      if e.Some? {
        listed := listed + [e.value];
      }
    }
    assert scanned[..|scanned|] == scanned;
    var d := new ExecutionDecoder(world, safe, listed, events);
    found := [];
    for i := 0 to |listed|
      invariant d.Valid() && |found| == i
      invariant forall k :: 0 <= k < i ==> found[k] == Reported(world, safe, listed, events, k)
    {
      var r := d.Decode(i);
      found := found + [r];
    }
    executions := Ok(listed);
  }
}

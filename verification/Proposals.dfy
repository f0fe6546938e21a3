// The transaction proposal of a request: proposal and decodeProposal of
// internal/safenet/safenet.go.
module Proposals {
  import opened Wrappers
  import opened EthTypes
  import opened SolAbi
  import opened SolAbiTheorems
  import opened Calls
  import opened SafeTxHash

  // A TransactionProposed log, with the topics that follow the one of its event.
  datatype Log = Log(block: nat, txHash: Word, topics: seq<Word>, data: Bytes, removed: bool)

  datatype Found = Found(log: Log, epoch: nat, oracleData: Bytes, safeTxHash: Word, transaction: SafeTransaction)

  // A proposal, and the time of its block.
  datatype Timed = Timed(found: Found, time: int)

  // The oracle that is asked about, the consensus contract on its chain, and the times
  // of the chain's blocks, which the node may refuse.
  datatype Session = Session(
    keccak: Hash, chainId: nat, consensus: Address, oracle: Address, header: nat -> Option<int>)

  predicate ReadsTransaction(t: Bytes) {
    && ReadUint(t, 0).Some? && ReadAddress(t, 1).Some? && ReadAddress(t, 2).Some? && ReadUint(t, 3).Some?
    && ReadBytes(t, 4).Some? && ReadUint64(t, 5).Some? && ReadUint(t, 6).Some? && ReadUint(t, 7).Some?
    && ReadUint(t, 8).Some? && ReadAddress(t, 9).Some? && ReadAddress(t, 10).Some? && ReadUint(t, 11).Some?
  }

  // The transaction in a tuple. An operation is a uint8, so the upper bits of one
  // that isn't are lost.
  function TransactionIn(t: Bytes): SafeTransaction
    requires ReadsTransaction(t)
  {
    SafeTransaction(
      ReadUint(t, 0).value, ReadAddress(t, 1).value, ReadAddress(t, 2).value, ReadUint(t, 3).value,
      ReadBytes(t, 4).value, ReadUint64(t, 5).value % 256, ReadUint(t, 6).value, ReadUint(t, 7).value,
      ReadUint(t, 8).value, ReadAddress(t, 9).value, ReadAddress(t, 10).value, ReadUint(t, 11).value)
  }

  function Decoded(log: Log): Result<Found>
    requires |log.topics| == 3
  {
    if || ReadTuple(log.data, 2).None? || ReadUint64(log.data, 0).None? || ReadBytes(log.data, 1).None?
       || !ReadsTransaction(ReadTuple(log.data, 2).value) then
      Err
    else
      var tx := TransactionIn(ReadTuple(log.data, 2).value);
      if tx.operation > DELEGATE_CALL then Err
      else Ok(Found(log, ReadUint64(log.data, 0).value, ReadBytes(log.data, 1).value, log.topics[0], tx))
  }

  // The decoder of the tuple shares the error of the log's.
  method DecodeTransaction(d: Decoder) returns (tx: SafeTransaction)
    modifies d.err
    ensures d.err.failed == (old(d.err.failed) || !ReadsTransaction(d.data))
    ensures !d.err.failed ==> tx == TransactionIn(d.data)
  {
    var chainId := d.Uint(0);
    var safe := d.Address(1);
    var to := d.Address(2);
    var value := d.Uint(3);
    var data := d.Bytes(4);
    var operation := d.Uint64(5);
    var safeTxGas := d.Uint(6);
    var baseGas := d.Uint(7);
    var gasPrice := d.Uint(8);
    var gasToken := d.Address(9);
    var refundReceiver := d.Address(10);
    var nonce := d.Uint(11);
    tx := SafeTransaction(
      chainId, safe, to, value, data, operation % 256, safeTxGas, baseGas, gasPrice, gasToken, refundReceiver, nonce);
  }

  method DecodeProposal(log: Log) returns (found: Result<Found>)
    requires |log.topics| == 3
    ensures found == Decoded(log)
  {
    var d := new Decoder(log.data);
    var inner := d.Tuple(2);
    var epoch := d.Uint64(0);
    var oracleData := d.Bytes(1);
    var tx := DecodeTransaction(inner);
    if d.err.failed || tx.operation > DELEGATE_CALL { return Err; }
    return Ok(Found(log, epoch, oracleData, log.topics[0], tx));
  }

  lemma ReadUintIsUint256(data: Bytes, i: nat)
    ensures ReadUint(data, i).Some? ==> IsUint256(ReadUint(data, i).value)
  {
    match ReadWord(data, 32 * i)
    case None =>
    case Some(w) => WordNumber(w);
  }

  lemma DecodedInRange(log: Log)
    requires |log.topics| == 3 && Decoded(log).Ok?
    ensures InRange(Decoded(log).value.transaction)
  {
    var t := ReadTuple(log.data, 2).value;
    ReadUintIsUint256(t, 0);
    ReadUintIsUint256(t, 3);
    ReadUintIsUint256(t, 6);
    ReadUintIsUint256(t, 7);
    ReadUintIsUint256(t, 8);
    ReadUintIsUint256(t, 11);
  }

  function ProposalOf(s: Session, f: Found): Proposal {
    Proposal(s.chainId, s.consensus, f.epoch, s.oracle, f.oracleData, f.safeTxHash)
  }

  // Whether a log is one that is looked at.
  predicate IsCandidate(log: Log) {
    !log.removed && |log.topics| == 3
  }

  function WithTime(s: Session, f: Found): Result<Timed> {
    match s.header(f.log.block)
    case None => Err
    case Some(time) => Ok(Timed(f, time))
  }

  // The proposal that hashes to a request's ID: the first one, whose transaction must
  // hash to the hash that is logged, and whose block the node must answer for.
  function ProposalIn(s: Session, logs: seq<Log>, id: Word): Result<Timed> {
    if logs == [] then Err
    else if !IsCandidate(logs[0]) then ProposalIn(s, logs[1..], id)
    else
      match Decoded(logs[0])
      case Err => Err
      case Ok(f) =>
        DecodedInRange(logs[0]);
        if RequestId(s.keccak, ProposalOf(s, f)) != id then ProposalIn(s, logs[1..], id)
        else if SafeTransactionHash(s.keccak, f.transaction) != f.safeTxHash then Err
        else WithTime(s, f)
  }

  method FindProposal(s: Session, logs: seq<Log>, id: Word) returns (found: Result<Timed>)
    ensures found == ProposalIn(s, logs, id)
  {
    for i := 0 to |logs|
      invariant ProposalIn(s, logs[i..], id) == ProposalIn(s, logs, id)
    {
      assert logs[i..][0] == logs[i] && logs[i..][1..] == logs[i + 1..];
      if !IsCandidate(logs[i]) { continue; }
      var decoded := DecodeProposal(logs[i]);
      if decoded.Err? { return Err; }
      var f := decoded.value;
      if RequestId(s.keccak, ProposalOf(s, f)) != id { continue; }
      DecodedInRange(logs[i]);
      if SafeTransactionHash(s.keccak, f.transaction) != f.safeTxHash { return Err; }
      var time := s.header(f.log.block);
      if time.None? { return Err; }
      return Ok(Timed(f, time.value));
    }
    return Err;
  }

  // ---- What is found ---------------------------------------------------------------------

  // Whatever the logs are, the proposal that is found is in one of them, and hashes to
  // the request's ID, and its transaction to the hash in it.
  lemma {:induction false} FoundIsBound(s: Session, logs: seq<Log>, id: Word)
    requires ProposalIn(s, logs, id).Ok?
    ensures var f := ProposalIn(s, logs, id).value.found;
            && s.header(f.log.block) == Some(ProposalIn(s, logs, id).value.time)
            && f.log in logs && InRange(f.transaction) && f.transaction.operation <= DELEGATE_CALL && f.epoch < UINT64
            && RequestId(s.keccak, ProposalOf(s, f)) == id
            && SafeTransactionHash(s.keccak, f.transaction) == f.safeTxHash
  {
    if !IsCandidate(logs[0]) {
      FoundIsBound(s, logs[1..], id);
    } else {
      DecodedInRange(logs[0]);
      EpochIsUint64(logs[0].data);
      if RequestId(s.keccak, ProposalOf(s, Decoded(logs[0]).value)) != id {
        FoundIsBound(s, logs[1..], id);
      }
    }
  }

  lemma EpochIsUint64(data: Bytes)
    ensures ReadUint64(data, 0).Some? ==> ReadUint64(data, 0).value < UINT64
  {
    match ReadWord(data, 0)
    case None =>
    case Some(w) =>
      ToNatBound(w[24..]);
      PowersOf256();
  }

  // Two proposals that are found for a request, in whatever logs, have the same epoch,
  // oracle data and transaction, or show a collision of the hash function.
  lemma {:induction false} FoundIsUnique(
    s: Session, logs: seq<Log>, others: seq<Log>, id: Word) returns (a: Bytes, b: Bytes)
    requires s.chainId < UINT64 && ProposalIn(s, logs, id).Ok? && ProposalIn(s, others, id).Ok?
    ensures var f, g := ProposalIn(s, logs, id).value.found, ProposalIn(s, others, id).value.found;
            || (f.epoch == g.epoch && f.oracleData == g.oracleData && f.transaction == g.transaction)
            || Collision(s.keccak, a, b)
  {
    FoundIsBound(s, logs, id);
    FoundIsBound(s, others, id);
    var f, g := ProposalIn(s, logs, id).value.found, ProposalIn(s, others, id).value.found;
    a, b := RequestIdBindsProposal(s.keccak, ProposalOf(s, f), ProposalOf(s, g));
    if ProposalOf(s, f) == ProposalOf(s, g) {
      a, b := HashBindsTransaction(s.keccak, f.transaction, g.transaction);
    }
  }

  // ---- The contract's own log ----------------------------------------------------------

  function TransactionValues(tx: SafeTransaction): seq<Value>
    requires InRange(tx)
  {
    [UintValue(tx.chainId), AddressValue(tx.safe), AddressValue(tx.to), UintValue(tx.value), BytesValue(tx.data),
     UintValue(tx.operation), UintValue(tx.safeTxGas), UintValue(tx.baseGas), UintValue(tx.gasPrice),
     AddressValue(tx.gasToken), AddressValue(tx.refundReceiver), UintValue(tx.nonce)]
  }

  function ProposedValues(epoch: nat, oracleData: Bytes, tx: SafeTransaction): seq<Value>
    requires InRange(tx)
  {
    [UintValue(epoch), BytesValue(oracleData), TupleValue(TransactionValues(tx))]
  }

  lemma {:induction false} TransactionReads(tx: SafeTransaction, data: Bytes)
    requires InRange(tx) && tx.operation <= DELEGATE_CALL && Decodes(data, TransactionValues(tx))
    ensures ReadsTransaction(data) && TransactionIn(data) == tx
  {
    var v := TransactionValues(tx);
    assert DecodesAt(data, 0, v[0]) && DecodesAt(data, 1, v[1]) && DecodesAt(data, 2, v[2]) && DecodesAt(data, 3, v[3]);
    assert DecodesAt(data, 4, v[4]) && DecodesAt(data, 5, v[5]) && DecodesAt(data, 6, v[6]) && DecodesAt(data, 7, v[7]);
    assert DecodesAt(data, 8, v[8]) && DecodesAt(data, 9, v[9]) && DecodesAt(data, 10, v[10]);
    assert DecodesAt(data, 11, v[11]);
  }

  lemma ValuesAreReadable(epoch: nat, oracleData: Bytes, tx: SafeTransaction)
    requires InRange(tx) && epoch < UINT64
    ensures Readable(ProposedValues(epoch, oracleData, tx)) && AllEncodable(ProposedValues(epoch, oracleData, tx))
    ensures HasDynamic(TransactionValues(tx))
  {
    var inner, values := TransactionValues(tx), ProposedValues(epoch, oracleData, tx);
    assert inner[4] in inner && IsDynamic(inner[4]);
    assert forall v :: v in inner ==> !v.TupleValue? && Encodable(v);
    assert ReadableMember(values[2]) && Encodable(values[2]);
    assert forall v :: v in values ==> v == values[0] || v == values[1] || v == values[2];
  }

  // Whether a log is passed over: it isn't looked at, or has another request's ID.
  predicate IsPassedOver(s: Session, log: Log, id: Word) {
    !IsCandidate(log) || (Decoded(log).Ok? && RequestId(s.keccak, ProposalOf(s, Decoded(log).value)) != id)
  }

  lemma {:induction false} PassesOver(s: Session, before: seq<Log>, logs: seq<Log>, id: Word)
    requires forall log :: log in before ==> IsPassedOver(s, log, id)
    ensures ProposalIn(s, before + logs, id) == ProposalIn(s, logs, id)
  {
    if before == [] {
      assert before + logs == logs;
    } else {
      assert IsPassedOver(s, before[0], id);
      assert (before + logs)[1..] == before[1..] + logs;
      PassesOver(s, before[1..], logs, id);
    }
  }

  // A log with the ABI encoding of a proposal that has the request's ID, with the hash
  // of its transaction as topic, is found, after any logs of other requests.
  lemma {:induction false} EncodedProposalIsFound(
    s: Session, before: seq<Log>, log: Log, rest: seq<Log>, id: Word, epoch: nat, oracleData: Bytes, tx: SafeTransaction)
    requires forall other :: other in before ==> IsPassedOver(s, other, id)
    requires InRange(tx) && tx.operation <= DELEGATE_CALL && epoch < UINT64 && IsCandidate(log)
    requires log.data == Encode(ProposedValues(epoch, oracleData, tx)) && |log.data| < UINT64
    requires log.topics[0] == SafeTransactionHash(s.keccak, tx)
    requires RequestId(s.keccak, Proposal(s.chainId, s.consensus, epoch, s.oracle, oracleData, log.topics[0])) == id
    ensures ProposalIn(s, before + ([log] + rest), id) == WithTime(s, Found(log, epoch, oracleData, log.topics[0], tx))
  {
    PassesOver(s, before, [log] + rest, id);
    ProposalReads(log.data, epoch, oracleData, tx);
    assert Decoded(log) == Ok(Found(log, epoch, oracleData, log.topics[0], tx));
  }

  lemma {:induction false} ProposalReads(data: Bytes, epoch: nat, oracleData: Bytes, tx: SafeTransaction)
    requires InRange(tx) && tx.operation <= DELEGATE_CALL && epoch < UINT64
    requires data == Encode(ProposedValues(epoch, oracleData, tx)) && |data| < UINT64
    ensures ReadUint64(data, 0) == Some(epoch) && ReadBytes(data, 1) == Some(oracleData)
    ensures ReadTuple(data, 2).Some? && ReadsTransaction(ReadTuple(data, 2).value)
    ensures TransactionIn(ReadTuple(data, 2).value) == tx
  {
    var values := ProposedValues(epoch, oracleData, tx);
    ValuesAreReadable(epoch, oracleData, tx);
    RoundTrip(values, []);
    NothingAfter(data);
    assert DecodesAt(data, 0, values[0]) && DecodesAt(data, 1, values[1]) && DecodesAt(data, 2, values[2]);
    TransactionReads(tx, ReadTuple(data, 2).value);
  }
}

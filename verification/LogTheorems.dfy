// What is read of the Safe's logs, for any logs.
module LogTheorems {
  import opened Wrappers
  import opened EthTypes
  import opened SolAbi
  import opened SolAbiTheorems
  import opened Calls
  import opened SafeTxHash
  import opened Executions
  import opened ExecutionsTheorems

  // A log that says that a transaction was executed, in the form of 1.3.0, or of later
  // versions.
  predicate IsExecutionLog(log: Log) {
    && !log.removed && log.event.Some? && log.event != Some(MultiSigTransaction)
    && ((log.topics == [] && |log.data| == 64) || (|log.topics| == 1 && |log.data| == 32))
  }

  // The execution that it is of.
  predicate IsOf(e: Execution, log: Log)
    requires IsExecutionLog(log)
  {
    && e.block == log.block && e.txHash == log.txHash && e.logIndex == log.logIndex
    && (e.success <==> log.event == Some(ExecutionSuccess))
    && if log.topics == [] then e.safeTxHash + FromNat(e.payment, 32) == log.data
       else e.safeTxHash == log.topics[0] && FromNat(e.payment, 32) == log.data
  }

  predicate Rise(positions: seq<nat>) {
    forall i, j :: 0 <= i < j < |positions| ==> positions[i] < positions[j]
  }

  // The executions are those of the logs that say so, one for each, in order.
  predicate ListsExecutions(logs: seq<Log>, executions: seq<Execution>, positions: seq<nat>) {
    && |positions| == |executions| && Rise(positions)
    && (forall i :: 0 <= i < |positions| ==>
          positions[i] < |logs| && IsExecutionLog(logs[positions[i]]) && IsOf(executions[i], logs[positions[i]]))
    && forall p :: 0 <= p < |logs| && IsExecutionLog(logs[p]) ==> p in positions
  }

  lemma {:induction false} OneIsListed(log: Log)
    ensures IsExecutionLog(log) <==>
      !log.removed && log.event.Some? && log.event != Some(MultiSigTransaction) && DecodeExecution(log).Some?
    ensures IsExecutionLog(log) ==> IsOf(DecodeExecution(log).value, log)
  {
    if IsExecutionLog(log) {
      if log.topics == [] {
        FromNatToNat(log.data[32..]);
        assert log.data == log.data[..32] + log.data[32..];
      } else {
        FromNatToNat(log.data);
      }
    }
  }

  lemma {:induction false} ExecutionsAreListed(logs: seq<Log>) returns (positions: seq<nat>)
    ensures ListsExecutions(logs, ExecutionsIn(logs), positions)
  {
    positions := [];
    if logs != [] {
      var n := |logs| - 1;
      positions := ExecutionsAreListed(logs[..n]);
      ghost var before := positions;
      OneIsListed(logs[n]);
      if IsExecutionLog(logs[n]) {
        positions := positions + [n];
        assert positions[|before|] == n;
      }
      forall p | 0 <= p < |logs| && IsExecutionLog(logs[p]) ensures p in positions {
        assert p < n ==> logs[..n][p] == logs[p] && p in before;
      }
    }
  }

  // How the data of the logs of transactions is decoded.
  type Reading = Bytes -> Option<Candidate>

  function ReadingFor(safe: Address, chainId: nat): Reading {
    data => EventCandidate(safe, chainId, data)
  }

  // A log of a transaction that SafeL2 is about to execute.
  predicate IsEventLog(log: Log, read: Reading, txHash: Word) {
    !log.removed && log.event == Some(MultiSigTransaction) && log.txHash == txHash && read(log.data).Some?
  }

  // The transactions logged in an onchain transaction are those of its logs, in order.
  predicate ListsEvents(logs: seq<Log>, read: Reading, txHash: Word, candidates: seq<Candidate>, positions: seq<nat>) {
    && |positions| == |candidates| && Rise(positions)
    && (forall i :: 0 <= i < |positions| ==>
          && positions[i] < |logs| && IsEventLog(logs[positions[i]], read, txHash)
          && read(logs[positions[i]].data) == Some(candidates[i]))
    && forall p :: 0 <= p < |logs| && IsEventLog(logs[p], read, txHash) ==> p in positions
  }

  lemma {:induction false} EventsNext(logs: seq<Log>, safe: Address, chainId: nat, txHash: Word)
    requires logs != []
    ensures var n, read := |logs| - 1, ReadingFor(safe, chainId);
            var before := EventsOf(EventsIn(logs[..n], safe, chainId), txHash);
            var now := EventsOf(EventsIn(logs, safe, chainId), txHash);
            if IsEventLog(logs[n], read, txHash) then now == before + [read(logs[n].data).value] else now == before
  {
  }

  lemma {:induction false} SameListed(
    logs: seq<Log>, read: Reading, txHash: Word, candidates: seq<Candidate>, positions: seq<nat>)
    requires logs != [] && ListsEvents(logs[..|logs| - 1], read, txHash, candidates, positions)
    requires !IsEventLog(logs[|logs| - 1], read, txHash)
    ensures ListsEvents(logs, read, txHash, candidates, positions)
  {
    var n := |logs| - 1;
    forall p | 0 <= p < |logs| && IsEventLog(logs[p], read, txHash) ensures p in positions {
      assert logs[..n][p] == logs[p];
    }
  }

  lemma {:induction false} MoreListed(
    logs: seq<Log>, read: Reading, txHash: Word, candidates: seq<Candidate>, positions: seq<nat>)
    requires logs != [] && ListsEvents(logs[..|logs| - 1], read, txHash, candidates, positions)
    requires IsEventLog(logs[|logs| - 1], read, txHash)
    ensures ListsEvents(logs, read, txHash, candidates + [read(logs[|logs| - 1].data).value], positions + [|logs| - 1])
  {
    var n := |logs| - 1;
    var now := positions + [n];
    forall p | 0 <= p < |logs| && IsEventLog(logs[p], read, txHash) ensures p in now {
      if p < n {
        assert logs[..n][p] == logs[p];
      } else {
        assert now[|positions|] == p;
      }
    }
  }

  lemma {:induction false} EventsAreListed(logs: seq<Log>, safe: Address, chainId: nat, txHash: Word)
    returns (positions: seq<nat>)
    ensures ListsEvents(logs, ReadingFor(safe, chainId), txHash, EventsOf(EventsIn(logs, safe, chainId), txHash), positions)
  {
    positions := [];
    if logs != [] {
      var n, read := |logs| - 1, ReadingFor(safe, chainId);
      var before := EventsOf(EventsIn(logs[..n], safe, chainId), txHash);
      positions := EventsAreListed(logs[..n], safe, chainId, txHash);
      EventsNext(logs, safe, chainId, txHash);
      if IsEventLog(logs[n], read, txHash) {
        MoreListed(logs, read, txHash, before, positions);
        positions := positions + [n];
      } else {
        SameListed(logs, read, txHash, before, positions);
      }
    }
  }

  // The nonce of a logged transaction is the first word of the additional information,
  // which may have no more, and must have all of that.
  lemma {:induction false} InfoStartsWithNonce(t: SafeTransaction, signatures: Bytes, info: Bytes)
    requires InRange(t) && t.operation <= DELEGATE_CALL
    requires |t.data| < MAX_TEXT && |signatures| < MAX_TEXT && |info| < MAX_TEXT
    ensures EventCandidate(t.safe, t.chainId, Encode(Arguments(t, signatures) + [BytesValue(info)]))
         == if |info| < 32 then None else Some(CandidateOf(t).(nonce := Some(ToNat(info[..32]))))
  {
    var values := Arguments(t, signatures) + [BytesValue(info)];
    var data := Encode(values);
    LogIsShort(t, signatures, info);
    SmallRoundTrip(values);
    assert forall i :: 0 <= i < 10 ==> values[i] == Arguments(t, signatures)[i];
    assert values[10] == BytesValue(info) && DecodesAt(data, 10, values[10]);
    ArgumentsRead(t, signatures, data);
  }

  lemma {:induction false} LogIsShort(t: SafeTransaction, signatures: Bytes, info: Bytes)
    requires InRange(t) && t.operation <= DELEGATE_CALL
    requires |t.data| < MAX_TEXT && |signatures| < MAX_TEXT && |info| < MAX_TEXT
    ensures var values := Arguments(t, signatures) + [BytesValue(info)];
            && |values| == 11 && Readable(values) && AllEncodable(values)
            && forall v :: v in values ==> |EncodeValue(v)| <= SHORT
  {
  }
}

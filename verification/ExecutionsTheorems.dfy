// What is reported of a Safe's executions, whatever the sources answer.
module ExecutionsTheorems {
  import opened Wrappers
  import opened EthTypes
  import opened SolAbi
  import opened SolAbiTheorems
  import opened Calls
  import opened SafeTxHash
  import opened Executions
  import opened Preorder

  // ---- Source independence ---------------------------------------------------------

  lemma {:induction false} FirstMatchingMatches(keccak: Hash, candidates: seq<Candidate>, want: Word)
    ensures var c := FirstMatching(keccak, candidates, want); c.Some? ==> Matches(keccak, c.value, want)
  {
    if candidates != [] {
      FirstMatchingMatches(keccak, candidates[1..], want);
    }
  }

  lemma {:induction false} FirstCallMatches(w: World, safe: Address, inputs: seq<Bytes>, want: Word, nonce: nat)
    ensures var c := FirstCallMatching(w, safe, inputs, want, nonce); c.Some? ==> Matches(w.keccak, c.value, want)
  {
    if inputs != [] {
      FirstCallMatches(w, safe, inputs[1..], want, nonce);
    }
  }

  // Whatever the sources answer, a transaction that is reported has the hash that the
  // Safe logged.
  lemma ReportedMatches(w: World, safe: Address, executions: seq<Execution>, events: map<Word, seq<Candidate>>, i: nat)
    requires i < |executions| && Reported(w, safe, executions, events, i).Some?
    ensures Matches(w.keccak, Reported(w, safe, executions, events, i).value.1, executions[i].safeTxHash)
  {
    var e := executions[i];
    FirstMatchingMatches(w.keccak, EventsOf(events, e.txHash), e.safeTxHash);
    var nonce := NonceOf(w, |executions|, i);
    if nonce.Some? {
      FirstCallMatches(w, safe, InputsOf(w, safe, e.txHash), e.safeTxHash, nonce.value);
    }
  }

  lemma SameTransaction(c: Candidate, d: Candidate)
    requires Complete(c).Some? && Complete(c) == Complete(d)
    ensures c == d
  {
  }

  // Two reports of a Safe transaction hash, by different sources that answer whatever
  // they like, are of the same transaction, or show a collision of the hash function.
  lemma {:induction false} SourcesAgree(
    w1: World, safe1: Address, executions1: seq<Execution>, events1: map<Word, seq<Candidate>>, i: nat,
    w2: World, safe2: Address, executions2: seq<Execution>, events2: map<Word, seq<Candidate>>, j: nat)
    returns (a: Bytes, b: Bytes)
    requires i < |executions1| && j < |executions2| && w1.keccak == w2.keccak
    requires executions1[i].safeTxHash == executions2[j].safeTxHash
    requires Reported(w1, safe1, executions1, events1, i).Some? && Reported(w2, safe2, executions2, events2, j).Some?
    ensures || Reported(w1, safe1, executions1, events1, i).value.1 == Reported(w2, safe2, executions2, events2, j).value.1
            || Collision(w1.keccak, a, b)
  {
    ReportedMatches(w1, safe1, executions1, events1, i);
    ReportedMatches(w2, safe2, executions2, events2, j);
    var c := Reported(w1, safe1, executions1, events1, i).value.1;
    var d := Reported(w2, safe2, executions2, events2, j).value.1;
    a, b := HashBindsTransaction(w1.keccak, Complete(c).value, Complete(d).value);
    if Complete(c) == Complete(d) {
      SameTransaction(c, d);
    }
  }

  // ---- Direct calls ------------------------------------------------------------------

  function Arguments(t: SafeTransaction, signatures: Bytes): seq<Value>
    requires InRange(t)
  {
    [AddressValue(t.to), UintValue(t.value), BytesValue(t.data), UintValue(t.operation), UintValue(t.safeTxGas),
     UintValue(t.baseGas), UintValue(t.gasPrice), AddressValue(t.gasToken), AddressValue(t.refundReceiver),
     BytesValue(signatures)]
  }

  function CandidateOf(t: SafeTransaction): Candidate {
    Candidate(
      Some(t.chainId), t.safe, t.to, Some(t.value), t.data, t.operation, Some(t.safeTxGas), Some(t.baseGas),
      Some(t.gasPrice), t.gasToken, t.refundReceiver, Some(t.nonce))
  }

  lemma {:induction false} ArgumentsRead(t: SafeTransaction, signatures: Bytes, data: Bytes)
    requires InRange(t) && t.operation <= DELEGATE_CALL && Decodes(data, Arguments(t, signatures))
    ensures ReadFields(data, t.safe, t.chainId) == Some(CandidateOf(t).(nonce := None))
    ensures ReadBytes(data, 9) == Some(signatures)
  {
    var values := Arguments(t, signatures);
    assert DecodesAt(data, 0, values[0]) && DecodesAt(data, 1, values[1]) && DecodesAt(data, 2, values[2]);
    assert DecodesAt(data, 3, values[3]) && DecodesAt(data, 4, values[4]) && DecodesAt(data, 5, values[5]);
    assert DecodesAt(data, 6, values[6]) && DecodesAt(data, 7, values[7]) && DecodesAt(data, 8, values[8]);
    assert DecodesAt(data, 9, values[9]);
  }

  // The canonical calldata of a call to execTransaction decodes to its transaction,
  // whatever the signatures are.
  lemma CanonicalCallDecodes(t: SafeTransaction, signatures: Bytes)
    requires InRange(t) && t.operation <= DELEGATE_CALL
    requires |Encode(Arguments(t, signatures))| < UINT64
    ensures CallCandidate(t.safe, t.chainId, CallData(EXEC_TRANSACTION, Arguments(t, signatures)))
         == Some(CandidateOf(t).(nonce := None))
  {
    var values := Arguments(t, signatures);
    var input := CallData(EXEC_TRANSACTION, values);
    RoundTrip(values, []);
    NothingAfter(Encode(values));
    ArgumentsRead(t, signatures, Encode(values));
    assert input[..4] == EXEC_TRANSACTION && input[4..] == Encode(values);
  }

  // An execution is by a direct call if its onchain transaction calls the Safe with
  // the canonical calldata of a transaction that has the hash that the Safe logged.
  predicate IsDirectCall(w: World, safe: Address, e: Execution, t: SafeTransaction, signatures: Bytes) {
    && InRange(t) && t.operation <= DELEGATE_CALL && t.safe == safe && t.chainId == w.chainId
    && SafeTransactionHash(w.keccak, t) == e.safeTxHash
    && |Encode(Arguments(t, signatures))| < UINT64
    && w.transaction(e.txHash) == Some(Transaction(Some(safe), CallData(EXEC_TRANSACTION, Arguments(t, signatures))))
  }

  // Given the nonce that it used, a direct call is always decoded, and, if no event
  // has its transaction, from its calldata.
  lemma {:induction false} DirectCallIsReported(
    w: World, safe: Address, executions: seq<Execution>, events: map<Word, seq<Candidate>>, i: nat,
    t: SafeTransaction, signatures: Bytes)
    requires i < |executions| && IsDirectCall(w, safe, executions[i], t, signatures)
    requires NonceOf(w, |executions|, i) == Some(t.nonce)
    ensures var e := executions[i];
            Reported(w, safe, executions, events, i)
            == match FirstMatching(w.keccak, EventsOf(events, e.txHash), e.safeTxHash)
               case Some(c) => Some((EventSource, c))
               case None => Some((CalldataSource, CandidateOf(t)))
  {
    CanonicalCallDecodes(t, signatures);
    var c := CandidateOf(t).(nonce := None).(nonce := Some(t.nonce));
    assert c == CandidateOf(t) && Complete(c) == Some(t);
  }

  // ---- SafeMultiSigTransaction logs -----------------------------------------------------

  // What SafeL2 logs of an execution, besides its transaction.
  datatype MultiSig = MultiSig(signatures: Bytes, sender: Address, threshold: nat)

  function EventInfo(tx: SafeTransaction, event: MultiSig): seq<Value>
    requires InRange(tx)
  {
    [UintValue(tx.nonce), AddressValue(event.sender), UintValue(event.threshold)]
  }

  // The values of the data of a SafeMultiSigTransaction log.
  function EventValues(tx: SafeTransaction, event: MultiSig): seq<Value>
    requires InRange(tx)
  {
    Arguments(tx, event.signatures) + [BytesValue(Encode(EventInfo(tx, event)))]
  }

  predicate IsLoggable(tx: SafeTransaction, event: MultiSig) {
    && InRange(tx) && tx.operation <= DELEGATE_CALL && |tx.data| < MAX_TEXT
    && |event.signatures| < MAX_TEXT && event.threshold < UINT256
  }

  lemma {:induction false} StaticHasNoTails(parts: seq<Part>)
    requires forall i :: 0 <= i < |parts| ==> !parts[i].dynamic
    ensures Tails(parts) == []
  {
    if parts != [] {
      StaticHasNoTails(parts[1..]);
    }
  }

  // The additional information starts with the nonce.
  lemma {:induction false} InfoHasNonce(tx: SafeTransaction, event: MultiSig)
    requires IsLoggable(tx, event)
    ensures |Encode(EventInfo(tx, event))| == 96
    ensures ToNat(Encode(EventInfo(tx, event))[..32]) == tx.nonce
  {
    var values := EventInfo(tx, event);
    var info, parts := Encode(values), Parts(values);
    OneWordParts(values);
    HeadsTakeOneWord(parts, 96, 0);
    forall i | 0 <= i < 3 ensures !parts[i].dynamic {
      MemberPart(values, i);
    }
    StaticHasNoTails(parts);
    SmallRoundTrip(values);
    assert DecodesAt(info, 0, values[0]);
  }

  lemma {:induction false} EventReads(t: SafeTransaction, event: MultiSig, data: Bytes)
    requires IsLoggable(t, event) && Decodes(data, EventValues(t, event))
    ensures Decodes(data, Arguments(t, event.signatures))
    ensures ReadBytes(data, 10) == Some(Encode(EventInfo(t, event)))
  {
    var args, values := Arguments(t, event.signatures), EventValues(t, event);
    forall i | 0 <= i < |args| ensures DecodesAt(data, i, args[i]) {
      assert values[i] == args[i] && DecodesAt(data, i, values[i]);
    }
    assert DecodesAt(data, 10, values[10]);
  }

  lemma {:induction false} EventIsShort(t: SafeTransaction, event: MultiSig)
    requires IsLoggable(t, event)
    ensures var values := EventValues(t, event);
            Readable(values) && AllEncodable(values) && |values| <= 16
            && forall v :: v in values ==> |EncodeValue(v)| <= SHORT
  {
    InfoHasNonce(t, event);
  }

  // The data that SafeL2 logs of a transaction decodes to it, with its nonce.
  lemma EventDecodes(t: SafeTransaction, event: MultiSig)
    requires IsLoggable(t, event)
    ensures EventCandidate(t.safe, t.chainId, Encode(EventValues(t, event))) == Some(CandidateOf(t))
  {
    var data := Encode(EventValues(t, event));
    EventIsShort(t, event);
    SmallRoundTrip(EventValues(t, event));
    EventReads(t, event, data);
    ArgumentsRead(t, event.signatures, data);
    InfoHasNonce(t, event);
  }

  lemma {:induction false} FirstMatchingIsFound(keccak: Hash, candidates: seq<Candidate>, c: Candidate, want: Word)
    requires c in candidates && Matches(keccak, c, want)
    ensures FirstMatching(keccak, candidates, want).Some?
  {
    if candidates[0] != c {
      FirstMatchingIsFound(keccak, candidates[1..], c, want);
    }
  }

  // ---- A wrong nonce ---------------------------------------------------------------------

  lemma MatchesHave(w: World, c: Candidate, t: SafeTransaction, want: Word) returns (a: Bytes, b: Bytes)
    requires InRange(t) && SafeTransactionHash(w.keccak, t) == want && Matches(w.keccak, c, want)
    ensures c == CandidateOf(t) || Collision(w.keccak, a, b)
  {
    a, b := HashBindsTransaction(w.keccak, Complete(c).value, t);
    if Complete(c).value == t {
      SameTransaction(c, CandidateOf(t));
    }
  }

  lemma {:induction false} CallsHaveNonce(w: World, safe: Address, inputs: seq<Bytes>, want: Word, nonce: nat)
    ensures var c := FirstCallMatching(w, safe, inputs, want, nonce); c.Some? ==> c.value.nonce == Some(nonce)
  {
    if inputs != [] {
      CallsHaveNonce(w, safe, inputs[1..], want, nonce);
    }
  }

  // With another nonce than the one that the transaction with the logged hash has, the
  // calldata and the trace report nothing, or there is a collision of the hash function.
  lemma WrongNonceLoses(w: World, safe: Address, e: Execution, t: SafeTransaction, nonce: nat)
    returns (a: Bytes, b: Bytes)
    requires InRange(t) && SafeTransactionHash(w.keccak, t) == e.safeTxHash && nonce != t.nonce
    ensures FromCalls(w, safe, e, Some(nonce)).None? || Collision(w.keccak, a, b)
  {
    a, b := [], [];
    var found := FromCalls(w, safe, e, Some(nonce));
    if found.Some? {
      FirstCallMatches(w, safe, InputsOf(w, safe, e.txHash), e.safeTxHash, nonce);
      CallsHaveNonce(w, safe, InputsOf(w, safe, e.txHash), e.safeTxHash, nonce);
      a, b := MatchesHave(w, found.value.1, t, e.safeTxHash);
    }
  }

  // ---- Traces ------------------------------------------------------------------------------

  // The frame that a path of child indices leads to, if there is one and no call on
  // the way there, or there, reverted.
  function Live(frame: CallFrame, path: seq<nat>): Option<CallFrame>
    decreases path
  {
    if frame.reverted then None
    else if path == [] then Some(frame)
    else if path[0] < |frame.calls| then Live(frame.calls[path[0]], path[1..])
    else None
  }

  predicate LeadsToCall(frame: CallFrame, path: seq<nat>, safe: Address, input: Bytes) {
    match Live(frame, path)
    case None => false
    case Some(f) => IsCallTo(f, safe) && f.input == input
  }

  // The paths to the calls to safe in a frame that weren't undone.
  function Paths(frame: CallFrame, safe: Address): seq<seq<nat>>
    decreases frame, |frame.calls| + 1
  {
    if frame.reverted then []
    else (if IsCallTo(frame, safe) then [[]] else []) + PathsFrom(frame, safe, 0)
  }

  // Those through the children from one on.
  function PathsFrom(frame: CallFrame, safe: Address, first: nat): seq<seq<nat>>
    requires first <= |frame.calls|
    decreases frame, |frame.calls| - first
  {
    if first == |frame.calls| then []
    else Under(first, Paths(frame.calls[first], safe)) + PathsFrom(frame, safe, first + 1)
  }

  // Each path leads to the calldata at its index.
  predicate Lead(frame: CallFrame, paths: seq<seq<nat>>, safe: Address, inputs: seq<Bytes>) {
    |paths| == |inputs| && forall i :: 0 <= i < |paths| ==> LeadsToCall(frame, paths[i], safe, inputs[i])
  }

  lemma {:induction false} PathsLead(frame: CallFrame, safe: Address)
    ensures Lead(frame, Paths(frame, safe), safe, CallsIn(frame, safe))
    decreases frame, |frame.calls| + 1
  {
    if !frame.reverted {
      PathsFromLead(frame, safe, 0);
      assert frame.calls[0..] == frame.calls;
    }
  }

  lemma {:induction false} PathsFromLead(frame: CallFrame, safe: Address, first: nat)
    requires first <= |frame.calls| && !frame.reverted
    ensures Lead(frame, PathsFrom(frame, safe, first), safe, CallsInAll(frame.calls[first..], safe))
    decreases frame, |frame.calls| - first
  {
    if first < |frame.calls| {
      var child := frame.calls[first];
      assert frame.calls[first..][0] == child && frame.calls[first..][1..] == frame.calls[first + 1..];
      PathsLead(child, safe);
      PathsFromLead(frame, safe, first + 1);
    }
  }

  lemma {:induction false} PathsAreInOrder(frame: CallFrame, safe: Address)
    ensures InStartOrder(Paths(frame, safe))
    decreases frame, |frame.calls| + 1
  {
    if !frame.reverted {
      PathsFromAreInOrder(frame, safe, 0);
    }
  }

  lemma {:induction false} PathsFromAreInOrder(frame: CallFrame, safe: Address, first: nat)
    requires first <= |frame.calls|
    ensures var paths := PathsFrom(frame, safe, first);
            InStartOrder(paths) && forall p :: p in paths ==> p != [] && first <= p[0]
    decreases frame, |frame.calls| - first
  {
    if first < |frame.calls| {
      var paths := Paths(frame.calls[first], safe);
      PathsAreInOrder(frame.calls[first], safe);
      PathsFromAreInOrder(frame, safe, first + 1);
    }
  }

  lemma {:induction false} PathIsListed(frame: CallFrame, path: seq<nat>, safe: Address, input: Bytes)
    requires LeadsToCall(frame, path, safe, input)
    ensures path in Paths(frame, safe)
    decreases path, 0
  {
    if path != [] {
      ChildPathIsListed(frame, path, safe, input, 0);
    }
  }

  lemma {:induction false} ChildPathIsListed(frame: CallFrame, path: seq<nat>, safe: Address, input: Bytes, first: nat)
    requires LeadsToCall(frame, path, safe, input) && path != [] && first <= path[0]
    ensures path in PathsFrom(frame, safe, first)
    decreases path[1..], 1, path[0] - first
  {
    if first < path[0] {
      ChildPathIsListed(frame, path, safe, input, first + 1);
    } else {
      var paths := Paths(frame.calls[first], safe);
      PathIsListed(frame.calls[first], path[1..], safe, input);
      UnderHas(first, paths, path);
    }
  }

  // The trace source offers exactly the calldata of the calls to the Safe that have no
  // reverted call around them, in the order that the calls start.
  lemma OfferedExactly(frame: CallFrame, safe: Address) returns (paths: seq<seq<nat>>)
    ensures Lead(frame, paths, safe, CallsIn(frame, safe)) && InStartOrder(paths)
    ensures forall path, input :: LeadsToCall(frame, path, safe, input) ==> path in paths
  {
    paths := Paths(frame, safe);
    PathsLead(frame, safe);
    PathsAreInOrder(frame, safe);
    forall path, input | LeadsToCall(frame, path, safe, input) ensures path in paths {
      PathIsListed(frame, path, safe, input);
    }
  }

  lemma {:induction false} PathIsOffered(frame: CallFrame, path: seq<nat>, safe: Address, input: Bytes)
    requires LeadsToCall(frame, path, safe, input)
    ensures input in CallsIn(frame, safe)
  {
    PathIsListed(frame, path, safe, input);
    PathsLead(frame, safe);
    var i :| 0 <= i < |Paths(frame, safe)| && Paths(frame, safe)[i] == path;
    assert CallsIn(frame, safe)[i] == input;
  }

  lemma {:induction false} FirstCallIsFound(
    w: World, safe: Address, inputs: seq<Bytes>, input: Bytes, want: Word, nonce: nat)
    requires input in inputs && CallMatching(w, safe, input, want, nonce).Some?
    ensures FirstCallMatching(w, safe, inputs, want, nonce).Some?
  {
    if inputs[0] != input {
      FirstCallIsFound(w, safe, inputs[1..], input, want, nonce);
    }
  }

  // Given the nonce that it used, an execution is also decoded if a call to the Safe
  // anywhere in the trace, that wasn't undone, has its canonical calldata.
  lemma TracedCallIsReported(
    w: World, safe: Address, executions: seq<Execution>, events: map<Word, seq<Candidate>>, i: nat,
    t: SafeTransaction, signatures: Bytes, path: seq<nat>)
    requires i < |executions| && NonceOf(w, |executions|, i) == Some(t.nonce)
    requires InRange(t) && t.operation <= DELEGATE_CALL && t.safe == safe && t.chainId == w.chainId
    requires SafeTransactionHash(w.keccak, t) == executions[i].safeTxHash
    requires |Encode(Arguments(t, signatures))| < UINT64
    requires var root := w.trace(executions[i].txHash);
             root.Some? && LeadsToCall(root.value, path, safe, CallData(EXEC_TRANSACTION, Arguments(t, signatures)))
    ensures Reported(w, safe, executions, events, i).Some?
  {
    var e, input := executions[i], CallData(EXEC_TRANSACTION, Arguments(t, signatures));
    CanonicalCallDecodes(t, signatures);
    var c := CandidateOf(t).(nonce := None).(nonce := Some(t.nonce));
    assert c == CandidateOf(t) && Complete(c) == Some(t);
    PathIsOffered(w.trace(e.txHash).value, path, safe, input);
    FirstCallIsFound(w, safe, InputsOf(w, safe, e.txHash), input, e.safeTxHash, t.nonce);
  }
}

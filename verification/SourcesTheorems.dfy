// What is reported for an execution, by what each source answers.
module SourcesTheorems {
  import opened Wrappers
  import opened EthTypes
  import opened SolAbi
  import opened Calls
  import opened SafeTxHash
  import opened Executions
  import opened ExecutionsTheorems

  // ---- What each source has ----------------------------------------------------------

  // x is the first element of s that a condition holds of.
  predicate IsFirst<T(==)>(s: seq<T>, hit: T -> bool, x: T) {
    exists k :: 0 <= k < |s| && IsFirstAt(s, hit, x, k)
  }

  predicate IsFirstAt<T(==)>(s: seq<T>, hit: T -> bool, x: T, k: nat)
    requires k < |s|
  {
    s[k] == x && hit(x) && forall j :: 0 <= j < k ==> !hit(s[j])
  }

  predicate Any<T>(s: seq<T>, hit: T -> bool) {
    exists k :: 0 <= k < |s| && hit(s[k])
  }

  // The logged transactions with a hash.
  function Hashing(w: World, want: Word): Candidate -> bool {
    c => Matches(w.keccak, c, want)
  }

  // Calldata to the Safe whose transaction, with a nonce, matches.
  predicate InputMatches(w: World, safe: Address, input: Bytes, want: Word, nonce: nat) {
    && CallCandidate(safe, w.chainId, input).Some?
    && Matches(w.keccak, CallCandidate(safe, w.chainId, input).value.(nonce := Some(nonce)), want)
  }

  function Calling(w: World, safe: Address, want: Word, nonce: nat): Bytes -> bool {
    input => InputMatches(w, safe, input, want, nonce)
  }

  predicate InputHas(w: World, safe: Address, input: Bytes, want: Word, nonce: nat, c: Candidate) {
    InputMatches(w, safe, input, want, nonce)
    && c == CallCandidate(safe, w.chainId, input).value.(nonce := Some(nonce))
  }

  predicate DirectHas(w: World, safe: Address, e: Execution, nonce: Option<nat>) {
    && nonce.Some? && w.transaction(e.txHash).Some? && w.transaction(e.txHash).value.to == Some(safe)
    && InputMatches(w, safe, w.transaction(e.txHash).value.input, e.safeTxHash, nonce.value)
  }

  // The calldata of the calls to the Safe that a trace offers.
  function Offered(w: World, safe: Address, e: Execution): seq<Bytes> {
    match w.trace(e.txHash)
    case None => []
    case Some(root) => CallsIn(root, safe)
  }

  predicate TracedHas(w: World, safe: Address, e: Execution, nonce: Option<nat>) {
    nonce.Some? && Any(Offered(w, safe, e), Calling(w, safe, e.safeTxHash, nonce.value))
  }

  predicate ServiceHas(w: World, want: Word, c: Candidate) {
    w.service.Some? && w.service.value(want) == Some(c) && Matches(w.keccak, c, want)
  }

  // ---- What is reported ----------------------------------------------------------------

  lemma {:induction false} FirstOfRest<T(!new)>(s: seq<T>, hit: T -> bool, x: T)
    requires s != []
    ensures IsFirst(s, hit, x) <==> if hit(s[0]) then x == s[0] else IsFirst(s[1..], hit, x)
    ensures Any(s, hit) <==> hit(s[0]) || Any(s[1..], hit)
  {
    var rest := s[1..];
    if hit(s[0]) {
      assert IsFirstAt(s, hit, s[0], 0);
    } else {
      if k :| 0 <= k < |rest| && IsFirstAt(rest, hit, x, k) {
        assert IsFirstAt(s, hit, x, k + 1);
      }
      if k :| 0 <= k < |s| && IsFirstAt(s, hit, x, k) {
        assert forall j :: 0 <= j < k - 1 ==> rest[j] == s[j + 1];
        assert IsFirstAt(rest, hit, x, k - 1);
      }
    }
    if k :| 0 <= k < |rest| && hit(rest[k]) {
      assert hit(s[k + 1]);
    }
    if k :| 0 < k < |s| && hit(s[k]) {
      assert hit(rest[k - 1]);
    }
  }

  lemma {:induction false} FirstMatchingIs(w: World, logged: seq<Candidate>, want: Word, c: Candidate)
    ensures FirstMatching(w.keccak, logged, want) == Some(c) <==> IsFirst(logged, Hashing(w, want), c)
    ensures FirstMatching(w.keccak, logged, want).Some? <==> Any(logged, Hashing(w, want))
  {
    if logged != [] {
      FirstMatchingIs(w, logged[1..], want, c);
      FirstOfRest(logged, Hashing(w, want), c);
      assert Hashing(w, want)(logged[0]) == Matches(w.keccak, logged[0], want);
    }
  }

  lemma CallMatchingIs(w: World, safe: Address, input: Bytes, want: Word, nonce: nat)
    ensures Calling(w, safe, want, nonce)(input) <==> CallMatching(w, safe, input, want, nonce).Some?
    ensures forall c :: CallMatching(w, safe, input, want, nonce) == Some(c) <==> InputHas(w, safe, input, want, nonce, c)
  {
  }

  // The transaction of the first of some calldata that matches.
  predicate FirstInputHas(w: World, safe: Address, inputs: seq<Bytes>, want: Word, nonce: nat, c: Candidate) {
    exists input :: input in inputs && IsFirst(inputs, Calling(w, safe, want, nonce), input)
                 && InputHas(w, safe, input, want, nonce, c)
  }

  lemma {:induction false} FirstInputOfRest(
    w: World, safe: Address, inputs: seq<Bytes>, want: Word, nonce: nat, c: Candidate)
    requires inputs != []
    ensures FirstInputHas(w, safe, inputs, want, nonce, c) <==>
      if Calling(w, safe, want, nonce)(inputs[0]) then InputHas(w, safe, inputs[0], want, nonce, c)
      else FirstInputHas(w, safe, inputs[1..], want, nonce, c)
  {
    var hit := Calling(w, safe, want, nonce);
    forall input ensures
      IsFirst(inputs, hit, input) <==> if hit(inputs[0]) then input == inputs[0] else IsFirst(inputs[1..], hit, input)
    {
      FirstOfRest(inputs, hit, input);
    }
    FirstIsIn(inputs[1..], hit);
    assert inputs == [inputs[0]] + inputs[1..];
  }

  lemma FirstIsIn<T(!new)>(s: seq<T>, hit: T -> bool)
    ensures forall x :: IsFirst(s, hit, x) ==> x in s
  {
  }

  lemma {:induction false} FirstCallIs(
    w: World, safe: Address, inputs: seq<Bytes>, want: Word, nonce: nat, c: Candidate)
    ensures FirstCallMatching(w, safe, inputs, want, nonce) == Some(c) <==> FirstInputHas(w, safe, inputs, want, nonce, c)
    ensures FirstCallMatching(w, safe, inputs, want, nonce).Some? <==> Any(inputs, Calling(w, safe, want, nonce))
  {
    if inputs != [] {
      FirstCallIs(w, safe, inputs[1..], want, nonce, c);
      FirstInputOfRest(w, safe, inputs, want, nonce, c);
      FirstOfRest(inputs, Calling(w, safe, want, nonce), inputs[0]);
      CallMatchingIs(w, safe, inputs[0], want, nonce);
    }
  }

  // What is reported for an execution, by the first of the sources that has a transaction
  // with the logged hash, in the order events, calldata, trace, service.
  predicate IsReport(
    w: World, safe: Address, e: Execution, logged: seq<Candidate>, nonce: Option<nat>, source: Source, c: Candidate)
  {
    match source
    case EventSource => IsFirst(logged, Hashing(w, e.safeTxHash), c)
    case CalldataSource =>
      && !Any(logged, Hashing(w, e.safeTxHash)) && DirectHas(w, safe, e, nonce)
      && InputHas(w, safe, w.transaction(e.txHash).value.input, e.safeTxHash, nonce.value, c)
    case TraceSource =>
      && !Any(logged, Hashing(w, e.safeTxHash)) && !DirectHas(w, safe, e, nonce) && nonce.Some?
      && FirstInputHas(w, safe, Offered(w, safe, e), e.safeTxHash, nonce.value, c)
    case ServiceSource => NoneBefore(w, safe, e, logged, nonce) && ServiceHas(w, e.safeTxHash, c)
  }

  // No source before the service has a transaction with the logged hash.
  predicate NoneBefore(w: World, safe: Address, e: Execution, logged: seq<Candidate>, nonce: Option<nat>) {
    !Any(logged, Hashing(w, e.safeTxHash)) && !DirectHas(w, safe, e, nonce) && !TracedHas(w, safe, e, nonce)
  }

  // A direct call is looked at by its calldata.
  lemma {:induction false} FromCalldataIs(w: World, safe: Address, e: Execution, nonce: Option<nat>, c: Candidate)
    ensures var r := FromCalls(w, safe, e, nonce);
            && (r == Some((CalldataSource, c)) <==>
                  && DirectHas(w, safe, e, nonce)
                  && InputHas(w, safe, w.transaction(e.txHash).value.input, e.safeTxHash, nonce.value, c))
            && (r.Some? ==> r.value.0 in {CalldataSource, TraceSource})
  {
    if nonce.Some? && w.transaction(e.txHash).Some? {
      CallMatchingIs(w, safe, w.transaction(e.txHash).value.input, e.safeTxHash, nonce.value);
    }
  }

  // Of the calls to the Safe, calldata comes before traces.
  lemma {:induction false} FromCallsIs(w: World, safe: Address, e: Execution, nonce: Option<nat>, c: Candidate)
    ensures var r := FromCalls(w, safe, e, nonce);
            && (r.None? <==> !DirectHas(w, safe, e, nonce) && !TracedHas(w, safe, e, nonce))
            && (r == Some((TraceSource, c)) <==>
                  && !DirectHas(w, safe, e, nonce) && nonce.Some?
                  && FirstInputHas(w, safe, Offered(w, safe, e), e.safeTxHash, nonce.value, c))
  {
    if nonce.Some? {
      FirstCallIs(w, safe, Offered(w, safe, e), e.safeTxHash, nonce.value, c);
      if w.transaction(e.txHash).Some? {
        CallMatchingIs(w, safe, w.transaction(e.txHash).value.input, e.safeTxHash, nonce.value);
      }
    }
  }

  // For whatever the sources answer: a transaction is reported exactly when the first
  // source that has one has it, and none is exactly when no source has one.
  lemma {:induction false} ReportedExactly(
    w: World, safe: Address, executions: seq<Execution>, events: map<Word, seq<Candidate>>, i: nat, source: Source,
    c: Candidate)
    requires i < |executions|
    ensures var e, nonce := executions[i], NonceOf(w, |executions|, i);
            var logged := if e.txHash in events then events[e.txHash] else [];
            && (Reported(w, safe, executions, events, i) == Some((source, c))
                <==> IsReport(w, safe, e, logged, nonce, source, c))
            && (Reported(w, safe, executions, events, i).None?
                <==> NoneBefore(w, safe, e, logged, nonce) && !exists d :: ServiceHas(w, e.safeTxHash, d))
  {
    var e := executions[i];
    FirstMatchingIs(w, EventsOf(events, e.txHash), e.safeTxHash, c);
    FromCalldataIs(w, safe, e, NonceOf(w, |executions|, i), c);
    FromCallsIs(w, safe, e, NonceOf(w, |executions|, i), c);
    FromServiceIs(w, e.safeTxHash);
    if source == EventSource && IsFirst(EventsOf(events, e.txHash), Hashing(w, e.safeTxHash), c) {
      assert Reported(w, safe, executions, events, i) == Some((EventSource, c));
    }
  }

  lemma FromServiceIs(w: World, want: Word)
    ensures forall c :: FromService(w, want) == Some((ServiceSource, c)) <==> ServiceHas(w, want, c)
    ensures FromService(w, want).Some? ==> FromService(w, want).value.0 == ServiceSource
    ensures FromService(w, want).None? <==> !exists c :: ServiceHas(w, want, c)
  {
    if FromService(w, want).Some? {
      assert ServiceHas(w, want, FromService(w, want).value.1);
    }
  }

  // ---- What matches -----------------------------------------------------------------------

  predicate IsAmount(x: int) {
    0 <= x < UINT256
  }

  // A candidate matches a hash exactly when it is a transaction with it: one that has each
  // amount, all of them uint256s, and is a call or a delegate call.
  lemma {:induction false} MatchesExactly(keccak: Hash, c: Candidate, want: Word)
    ensures Matches(keccak, c, want) <==> exists t: SafeTransaction ::
              && c == CandidateOf(t) && (t.operation == 0 || t.operation == 1)
              && IsAmount(t.chainId) && IsAmount(t.value) && IsAmount(t.safeTxGas) && IsAmount(t.baseGas)
              && IsAmount(t.gasPrice) && IsAmount(t.nonce) && SafeTransactionHash(keccak, t) == want
  {
    if Complete(c).Some? {
      assert c == CandidateOf(Complete(c).value);
    }
    forall t: SafeTransaction | c == CandidateOf(t) ensures Complete(c) == Some(t) {
    }
  }

  // Calldata with another operation matches nothing, also if its low byte is of one.
  lemma {:induction false} OtherOperationsNeverMatch(w: World, safe: Address, input: Bytes, want: Word, nonce: nat)
    requires |input| >= 4 && ReadUint(input[4..], 3).Some? && ReadUint(input[4..], 3).value > 1
    ensures !InputMatches(w, safe, input, want, nonce)
  {
    var data := input[4..];
    WideOperation(data, safe, w.chainId);
    var c := CallCandidate(safe, w.chainId, input);
    if c.Some? {
      assert c == ReadFields(data, safe, w.chainId);
    }
  }

  lemma {:induction false} WideOperation(data: Bytes, safe: Address, chainId: nat)
    requires ReadUint(data, 3).Some? && ReadUint(data, 3).value > 1
    ensures ReadFields(data, safe, chainId).Some? ==> ReadFields(data, safe, chainId).value.operation == INVALID_OPERATION
  {
    var word := ReadWord(data, 32 * 3).value;
    if ReadUint64(data, 3).Some? {
      assert word == Zeros(24) + word[24..];
      ToNatLeadingZeros(Zeros(24), word[24..]);
    }
  }
}

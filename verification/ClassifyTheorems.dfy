// What makes a request insecure, and exactly what makes it secure.
module ClassifyTheorems {
  import opened Wrappers
  import opened EthTypes
  import opened SolAbi
  import opened Calls
  import opened MultiSendExpander
  import opened MultiSendTheorems
  import opened Components
  import opened ComponentsTheorems
  import opened SafeVersions
  import opened Checks

  // ---- Any list of checks -------------------------------------------------------

  predicate Matches(check: Check, env: Env, safe: SafeId, c: Call) {
    check.fn(env, safe, c) == Ok(true)
  }

  predicate Breaks(check: Check, env: Env, safe: SafeId, calls: seq<Call>) {
    exists c :: c in calls && Matches(check, env, safe, c)
  }

  predicate Answers(check: Check, env: Env, safe: SafeId, calls: seq<Call>) {
    forall c :: c in calls ==> check.fn(env, safe, c).Ok?
  }

  predicate AllAnswer(checks: seq<Check>, env: Env, safe: SafeId, calls: seq<Call>) {
    forall i :: 0 <= i < |checks| ==> Answers(checks[i], env, safe, calls)
  }

  // Whether check i is the first one that matches a call, whichever call it is.
  predicate IsFirstBroken(checks: seq<Check>, env: Env, safe: SafeId, calls: seq<Call>, i: int) {
    && 0 <= i < |checks|
    && Breaks(checks[i], env, safe, calls)
    && forall k :: 0 <= k < i ==> !Breaks(checks[k], env, safe, calls)
  }

  lemma BreaksFirst(check: Check, env: Env, safe: SafeId, calls: seq<Call>)
    requires calls != []
    ensures Breaks(check, env, safe, calls)
       <==> Matches(check, env, safe, calls[0]) || Breaks(check, env, safe, calls[1..])
  {
    assert forall c :: c in calls <==> c == calls[0] || c in calls[1..];
  }

  lemma {:induction false} MatchesAnyIs(check: Check, env: Env, safe: SafeId, calls: seq<Call>)
    requires Answers(check, env, safe, calls)
    ensures MatchesAny(check, env, safe, calls) == Ok(Breaks(check, env, safe, calls))
  {
    if calls != [] {
      BreaksFirst(check, env, safe, calls);
      MatchesAnyIs(check, env, safe, calls[1..]);
    }
  }

  lemma {:induction false} FirstBrokenIs(checks: seq<Check>, env: Env, safe: SafeId, calls: seq<Call>)
    requires AllAnswer(checks, env, safe, calls)
    ensures FirstBroken(checks, env, safe, calls).Ok?
    ensures match FirstBroken(checks, env, safe, calls).value
            case None => forall k :: 0 <= k < |checks| ==> !Breaks(checks[k], env, safe, calls)
            case Some(i) => IsFirstBroken(checks, env, safe, calls, i)
  {
    if checks != [] {
      MatchesAnyIs(checks[0], env, safe, calls);
      FirstBrokenIs(checks[1..], env, safe, calls);
      assert forall k :: 1 <= k < |checks| ==> checks[k] == checks[1..][k - 1];
      if FirstBroken(checks[1..], env, safe, calls).value.Some? {
        var i := FirstBroken(checks[1..], env, safe, calls).value.value;
        assert checks[1..][i] == checks[i + 1];
      }
    }
  }

  lemma {:induction false} SecureIndexSplit(a: seq<Check>, b: seq<Check>)
    requires forall i :: 0 <= i < |a| ==> a[i].verdict != Secure
    requires b != [] && b[0].verdict == Secure
    ensures SecureIndex(a + b) == |a|
  {
    if a == [] {
      assert a + b == b;
    } else {
      assert (a + b)[1..] == a[1..] + b;
      SecureIndexSplit(a[1..], b);
    }
  }

  // A rule that a call breaks decides the request, whatever its other calls are: it
  // gets the classification of the first insecure check that matches any of them.
  lemma InsecureFirst(insecure: seq<Check>, secure: seq<Check>, env: Env, safe: SafeId, calls: seq<Call>)
    requires forall i :: 0 <= i < |insecure| ==> insecure[i].verdict == Insecure
    requires secure != [] && secure[0].verdict == Secure
    requires AllAnswer(insecure, env, safe, calls)
    ensures (exists i :: 0 <= i < |insecure| && Breaks(insecure[i], env, safe, calls)) ==>
      exists i :: IsFirstBroken(insecure, env, safe, calls, i)
               && ClassifyCalls(insecure + secure, env, safe, calls) == Ok(insecure[i].Class())
  {
    SecureIndexSplit(insecure, secure);
    assert (insecure + secure)[..|insecure|] == insecure;
    FirstBrokenIs(insecure, env, safe, calls);
    if FirstBroken(insecure, env, safe, calls).value.Some? {
      var i := FirstBroken(insecure, env, safe, calls).value.value;
      assert IsFirstBroken(insecure, env, safe, calls, i);
      assert (insecure + secure)[i] == insecure[i];
    }
  }

  // ---- The Charter's checks -------------------------------------------------------

  lemma InsecureChecksAnswer(env: Env, safe: SafeId, calls: seq<Call>)
    requires SafeVersion(env, safe).Ok?
    ensures AllAnswer(INSECURE_CHECKS, env, safe, calls)
  {
  }

  // The request that tx is the transaction of, as the checks see it.
  ghost predicate IsJudged(request: Request, env: Env, tx: SafeTransaction, at: Env, safe: SafeId) {
    && request.HasAmounts() && request.safeBlock != 0
    && tx == request.Transaction() && Refundable(tx)
    && at == env.(block := request.safeBlock) && safe == SafeId(tx.safe, tx.chainId)
  }

  // Off the networks that the Charter covers, the first check decides without a read.
  lemma {:induction false} OffNetworkDecides(multiSends: MultiSends, at: Env, safe: SafeId, calls: seq<Call>)
    requires OffNetwork(safe) && calls != []
    ensures IsFirstBroken(INSECURE_CHECKS, at, safe, calls, 0)
    ensures ClassifyCalls(AllChecks(multiSends), at, safe, calls) == Ok(INSECURE_CHECKS[0].Class())
  {
    var checks := INSECURE_CHECKS;
    assert checks[0] == OFF_NETWORK && Matches(checks[0], at, safe, calls[0]);
    InsecureVerdicts();
    SecureIndexSplit(checks, SecureChecks(multiSends));
    assert (checks + SecureChecks(multiSends))[..|checks|] == checks;
    assert (checks + SecureChecks(multiSends))[0] == checks[0];
  }

  // A leaf, at any depth of a nest of MultiSends that doesn't revert, that breaks a
  // rule makes the request insecure, when the Safe is off network or can be read.
  lemma {:induction false} InsecureWinsAtAnyDepth(
    multiSends: MultiSends, env: Env, request: Request, tx: SafeTransaction, at: Env, safe: SafeId,
    path: seq<nat>, leaf: Call, insecure: seq<Check>, broken: nat)
    requires IsJudged(request, env, tx, at, safe) && (OffNetwork(safe) || SafeVersion(at, safe).Ok?)
    requires Expand(multiSends, tx.safe, RootCall(tx)).Expanded?
    requires Reaches(multiSends, tx.safe, RootCall(tx), path, leaf) && Irreducible(multiSends, tx.safe, leaf)
    requires insecure == INSECURE_CHECKS && broken < |insecure| && Matches(insecure[broken], at, safe, leaf)
    ensures exists i :: IsFirstBroken(insecure, at, safe, ComponentCalls(multiSends, tx), i)
                     && Classify(AllChecks(multiSends), multiSends, env, request) == Ok(insecure[i].Class())
                     && insecure[i].verdict == Insecure
  {
    var calls, secure := ComponentCalls(multiSends, tx), SecureChecks(multiSends);
    LeafIsMade(multiSends, tx.safe, RootCall(tx), path, leaf);
    assert leaf in calls;
    InsecureVerdicts();
    if OffNetwork(safe) {
      OffNetworkDecides(multiSends, at, safe, calls);
    } else {
      InsecureChecksAnswer(at, safe, calls);
      assert Breaks(insecure[broken], at, safe, calls);
      InsecureFirst(insecure, secure, at, safe, calls);
    }
  }

  // ---- Exactly when a request is secure -----------------------------------------------

  predicate IsSecure(r: Result<Classification>) {
    r.Ok? && r.value.verdict == Secure
  }

  predicate IsSome<T>(r: Result<Option<T>>) {
    r.Ok? && r.value.Some?
  }

  // Whether a secure check matches c.
  predicate SecureCall(multiSends: MultiSends, safe: SafeId, c: Call) {
    || (c.to in multiSends && c == EmptyMultiSend(c.to))
    || (c.to in multiSends && c == RevertingMultiSend(c.to))
    || (SelfCall(safe, c, DISABLE_MODULE) && AllowedDisableModule(c))
    || (SelfCall(safe, c, SET_FALLBACK_HANDLER) && AllowedSetFallbackHandler(c))
    || EmptyCall(c, safe.address)
    || EmptyCall(c, ZERO_ADDRESS)
  }

  // Each of checks answers for c.
  predicate AllAnswerFor(checks: seq<Check>, env: Env, safe: SafeId, c: Call) {
    forall i :: 0 <= i < |checks| ==> checks[i].fn(env, safe, c).Ok?
  }

  predicate AnyMatches(checks: seq<Check>, env: Env, safe: SafeId, c: Call) {
    exists i :: 0 <= i < |checks| && Matches(checks[i], env, safe, c)
  }

  lemma SecureMatches(multiSends: MultiSends, env: Env, safe: SafeId, c: Call)
    ensures AllAnswerFor(SecureChecks(multiSends), env, safe, c)
    ensures SecureCall(multiSends, safe, c) <==> AnyMatches(SecureChecks(multiSends), env, safe, c)
  {
    var checks := SecureChecks(multiSends);
    if SecureCall(multiSends, safe, c) {
      assert Matches(checks[0], env, safe, c) || Matches(checks[1], env, safe, c) || Matches(checks[2], env, safe, c)
          || Matches(checks[3], env, safe, c) || Matches(checks[4], env, safe, c) || Matches(checks[5], env, safe, c);
    }
  }

  lemma {:induction false} FirstMatchSecure(multiSends: MultiSends, env: Env, safe: SafeId, c: Call)
    ensures FirstMatch(SecureChecks(multiSends), env, safe, c).Ok?
    ensures FirstMatch(SecureChecks(multiSends), env, safe, c).value.Some? <==> SecureCall(multiSends, safe, c)
  {
    SecureMatches(multiSends, env, safe, c);
    FirstMatchNone(SecureChecks(multiSends), env, safe, c);
  }

  // If no check errs, there is a first match exactly when a check matches.
  lemma {:induction false} FirstMatchNone(checks: seq<Check>, env: Env, safe: SafeId, c: Call)
    requires AllAnswerFor(checks, env, safe, c)
    ensures FirstMatch(checks, env, safe, c).Ok?
    ensures FirstMatch(checks, env, safe, c).value.Some? <==> AnyMatches(checks, env, safe, c)
  {
    if checks != [] {
      assert forall i :: 1 <= i < |checks| ==> checks[i] == checks[1..][i - 1];
      FirstMatchNone(checks[1..], env, safe, c);
    }
  }

  lemma {:induction false} DescriptionsIs(
    checks: seq<Check>, env: Env, safe: SafeId, calls: seq<Call>, found: seq<string>)
    requires forall c :: c in calls ==> FirstMatch(checks, env, safe, c).Ok?
    ensures Descriptions(checks, env, safe, calls, found).Ok?
    ensures IsSome(Descriptions(checks, env, safe, calls, found))
       <==> forall c :: c in calls ==> IsSome(FirstMatch(checks, env, safe, c))
  {
    if calls != [] {
      assert forall c :: c in calls <==> c == calls[0] || c in calls[1..];
      assert calls[0] in calls && FirstMatch(checks, env, safe, calls[0]).Ok?;
      var first := FirstMatch(checks, env, safe, calls[0]).value;
      if first.Some? {
        DescriptionsIs(checks, env, safe, calls[1..], Include(found, checks[first.value].description));
      }
    }
  }

  // Whether the Safe is one that the Charter covers, on a network that it covers.
  predicate Covered(env: Env, safe: SafeId) {
    !OffNetwork(safe) && SafeVersion(env, safe).Ok? && SafeVersion(env, safe).value != ""
  }

  // A secure call by the Safe to its own function is an allowed exception.
  lemma SecureSelfCall(multiSends: MultiSends, safe: SafeId, c: Call, selector: Bytes)
    requires SecureCall(multiSends, safe, c) && SelfCall(safe, c, selector)
    ensures || (selector == DISABLE_MODULE && AllowedDisableModule(c))
            || (selector == SET_FALLBACK_HANDLER && AllowedSetFallbackHandler(c))
  {
    EmptyMultiSendData();
  }

  lemma SecureChangesNothing(
    multiSends: MultiSends, env: Env, safe: SafeId, c: Call, selector: Bytes, args: nat, abstain: Abstain)
    requires SecureCall(multiSends, safe, c)
    requires selector == DISABLE_MODULE ==> abstain == OnDisableModuleException
    requires selector == SET_FALLBACK_HANDLER ==> abstain == OnFallbackHandlerException
    ensures ChangesSetting(selector, args, abstain, env, safe, c) != Ok(true)
  {
    if SelfCall(safe, c, selector) {
      SecureSelfCall(multiSends, safe, c, selector);
    }
  }

  // No insecure check matches a secure call: in particular, the check of a function
  // with an allowed exception doesn't match the exception.
  lemma SecureBreaksNothing(multiSends: MultiSends, env: Env, safe: SafeId, c: Call, i: nat)
    requires Covered(env, safe) && SecureCall(multiSends, safe, c) && i < |INSECURE_CHECKS|
    ensures !Matches(INSECURE_CHECKS[i], env, safe, c)
  {
    forall selector: Bytes, args, abstain: Abstain |
      (selector == DISABLE_MODULE ==> abstain == OnDisableModuleException)
      && (selector == SET_FALLBACK_HANDLER ==> abstain == OnFallbackHandlerException) && args >= 0
      ensures ChangesSetting(selector, args, abstain, env, safe, c) != Ok(true)
    {
      SecureChangesNothing(multiSends, env, safe, c, selector, args, abstain);
    }
  }

  lemma {:induction false} OffNetworkNever(env: Env, safe: SafeId, calls: seq<Call>)
    requires !OffNetwork(safe)
    ensures MatchesAny(OFF_NETWORK, env, safe, calls) == Ok(false)
  {
    if calls != [] {
      OffNetworkNever(env, safe, calls[1..]);
    }
  }

  // A Safe that isn't covered breaks one of the first two checks, or can't be read.
  lemma {:induction false} UncoveredIsNotSecure(multiSends: MultiSends, env: Env, safe: SafeId, calls: seq<Call>)
    requires calls != [] && !Covered(env, safe)
    ensures FirstBroken(INSECURE_CHECKS, env, safe, calls) in {Err, Ok(Some(0)), Ok(Some(1))}
  {
    var checks := INSECURE_CHECKS;
    assert checks[0] == OFF_NETWORK && checks[1] == UNSUPPORTED_SAFE;
    if !OffNetwork(safe) {
      OffNetworkNever(env, safe, calls);
    }
  }

  lemma InsecureVerdicts()
    ensures forall i :: 0 <= i < |INSECURE_CHECKS| ==> INSECURE_CHECKS[i].verdict == Insecure
  {
  }

  lemma {:induction false} ClassifyCallsSplit(
    insecure: seq<Check>, secure: seq<Check>, env: Env, safe: SafeId, calls: seq<Call>)
    requires forall i :: 0 <= i < |insecure| ==> insecure[i].verdict == Insecure
    requires secure != [] && secure[0].verdict == Secure
    ensures IsSecure(ClassifyCalls(insecure + secure, env, safe, calls))
       <==> FirstBroken(insecure, env, safe, calls) == Ok(None) && IsSome(Descriptions(secure, env, safe, calls, []))
  {
    SecureIndexSplit(insecure, secure);
    assert (insecure + secure)[..|insecure|] == insecure && (insecure + secure)[|insecure|..] == secure;
    var first := FirstBroken(insecure, env, safe, calls);
    if first.Ok? && first.value.Some? {
      assert (insecure + secure)[first.value.value] == insecure[first.value.value];
    }
  }

  lemma {:induction false} CoveredSecureBreaksNothing(multiSends: MultiSends, env: Env, safe: SafeId, calls: seq<Call>)
    requires Covered(env, safe) && forall c :: c in calls ==> SecureCall(multiSends, safe, c)
    ensures FirstBroken(INSECURE_CHECKS, env, safe, calls) == Ok(None)
  {
    InsecureChecksAnswer(env, safe, calls);
    FirstBrokenIs(INSECURE_CHECKS, env, safe, calls);
    var first := FirstBroken(INSECURE_CHECKS, env, safe, calls).value;
    if first.Some? {
      var c :| c in calls && Matches(INSECURE_CHECKS[first.value], env, safe, c);
      SecureBreaksNothing(multiSends, env, safe, c, first.value);
    }
  }

  lemma SecureExactlyByCalls(multiSends: MultiSends, env: Env, safe: SafeId, calls: seq<Call>)
    requires calls != []
    ensures IsSecure(ClassifyCalls(AllChecks(multiSends), env, safe, calls))
       <==> Covered(env, safe) && forall c :: c in calls ==> SecureCall(multiSends, safe, c)
  {
    var insecure, secure := INSECURE_CHECKS, SecureChecks(multiSends);
    InsecureVerdicts();
    ClassifyCallsSplit(insecure, secure, env, safe, calls);
    forall c | c in calls ensures FirstMatch(secure, env, safe, c).Ok? {
      FirstMatchSecure(multiSends, env, safe, c);
    }
    DescriptionsIs(secure, env, safe, calls, []);
    forall c | c in calls ensures IsSome(FirstMatch(secure, env, safe, c)) <==> SecureCall(multiSends, safe, c) {
      FirstMatchSecure(multiSends, env, safe, c);
    }
    if !Covered(env, safe) {
      UncoveredIsNotSecure(multiSends, env, safe, calls);
    } else if forall c :: c in calls ==> SecureCall(multiSends, safe, c) {
      CoveredSecureBreaksNothing(multiSends, env, safe, calls);
    }
  }

  // ---- In terms of the transaction --------------------------------------------------

  lemma {:induction false} StaticWords(values: seq<Value>, words: Bytes)
    requires forall i :: 0 <= i < |values| ==> !IsDynamic(values[i]) && |EncodeValue(values[i])| == 32
    requires |words| == 32 * |values|
    requires forall i :: 0 <= i < |values| ==> EncodeValue(values[i]) == words[32 * i..32 * i + 32]
    ensures Encode(values) == words
  {
    LayOutWords(Parts(values), words, 32 * |values|);
  }

  lemma {:induction false} LayOutWords(parts: seq<Part>, words: Bytes, base: nat)
    requires |words| == 32 * |parts|
    requires forall i :: 0 <= i < |parts| ==> !parts[i].dynamic && parts[i].bytes == words[32 * i..32 * i + 32]
    ensures Heads(parts, base, 0) + Tails(parts) == words
  {
    if parts != [] {
      var rest := words[32..];
      forall i | 0 <= i < |parts[1..]| ensures parts[1..][i].bytes == rest[32 * i..32 * i + 32] {
        assert parts[1..][i] == parts[i + 1];
      }
      LayOutWords(parts[1..], rest, base);
      assert words == words[..32] + rest;
      assert TailOf(parts[0]) == [];
    }
  }

  // Two words that start with 12 zeros are the encoding of the addresses in them.
  lemma TwoAddressWords(words: Bytes, first: Address, second: Address)
    requires |words| == 64 && IsZero(words[..12]) && IsZero(words[32..44])
    requires words[12..32] == first && words[44..64] == second
    ensures Encode([AddressValue(first), AddressValue(second)]) == words
  {
    assert words[0..32][..12] == words[..12] && words[0..32][12..] == first;
    assert words[32..64][..12] == words[32..44] && words[32..64][12..] == second;
    StaticWords([AddressValue(first), AddressValue(second)], words);
  }

  // The data of an allowed disableModule is byte for byte a call with two addresses.
  lemma DisableModuleData(c: Call)
    requires c.kind == Root && |c.data| >= 4 && c.data[..4] == DISABLE_MODULE
    ensures AllowedDisableModule(c) <==>
      c.value == 0 && exists previous: Address, removed: Address ::
        c.data == CallData(DISABLE_MODULE, [AddressValue(previous), AddressValue(removed)])
  {
    if AllowedDisableModule(c) {
      var previous, removed := c.data[16..36], c.data[48..68];
      assert IsZero(c.data[4 + 32 * 0..4 + 32 * 0 + 12]) && IsZero(c.data[4 + 32 * 1..4 + 32 * 1 + 12]);
      assert c.data[4..][..12] == c.data[4..16] && c.data[4..][32..44] == c.data[36..48];
      TwoAddressWords(c.data[4..], previous, removed);
      assert c.data == DISABLE_MODULE + c.data[4..];
    }
    forall previous: Address, removed: Address |
      c.data == CallData(DISABLE_MODULE, [AddressValue(previous), AddressValue(removed)])
      ensures c.value == 0 ==> AllowedDisableModule(c)
    {
      var words := AddressWord(previous) + AddressWord(removed);
      var values := [AddressValue(previous), AddressValue(removed)];
      assert words[0..32] == AddressWord(previous) && words[32..64] == AddressWord(removed);
      StaticWords(values, words);
      assert c.data[4..] == words;
      assert c.data[4..16] == words[..12] && c.data[36..48] == words[32..44];
      assert forall i :: 0 <= i < 2 ==> i == 0 || c.data[4 + 32 * i..4 + 32 * i + 12] == c.data[36..48];
    }
  }

  // The data of an allowed setFallbackHandler is byte for byte a call with zero.
  lemma SetFallbackHandlerData(c: Call)
    requires c.kind == Root && |c.data| >= 4 && c.data[..4] == SET_FALLBACK_HANDLER
    ensures AllowedSetFallbackHandler(c) <==>
      c.value == 0 && c.data == CallData(SET_FALLBACK_HANDLER, [AddressValue(ZERO_ADDRESS)])
  {
    var values := [AddressValue(ZERO_ADDRESS)];
    assert AddressWord(ZERO_ADDRESS) == ZERO_WORD;
    StaticWords(values, ZERO_WORD);
    if AllowedSetFallbackHandler(c) {
      assert c.data == SET_FALLBACK_HANDLER + c.data[4..];
    }
  }

  // A settings change that R-4.1 allows: the transaction's own call, to the Safe,
  // with no value, and with exactly the bytes of an encoded call.
  ghost predicate AllowedException(tx: SafeTransaction) {
    && tx.to == tx.safe && tx.operation == CALL && tx.value == 0
    && (|| (exists previous: Address, removed: Address ::
              tx.data == CallData(DISABLE_MODULE, [AddressValue(previous), AddressValue(removed)]))
        || tx.data == CallData(SET_FALLBACK_HANDLER, [AddressValue(ZERO_ADDRESS)]))
  }

  // A call that does nothing.
  predicate Cancels(tx: SafeTransaction, c: Call) {
    c.to in {tx.safe, ZERO_ADDRESS} && c.operation == CALL && c.value == 0 && c.data == []
  }

  // Whether the calls of tx are ones that the checks find secure: none, as they
  // revert or there aren't any, an allowed exception on its own, or cancellations.
  ghost predicate DecidedSecure(multiSends: MultiSends, tx: SafeTransaction) {
    match Expand(multiSends, tx.safe, RootCall(tx))
    case Reverts => true
    case Expanded(calls) =>
      || calls == []
      || (calls == [RootCall(tx)] && AllowedException(tx))
      || forall c :: c in calls ==> Cancels(tx, c)
  }

  lemma AllowedExceptionData(tx: SafeTransaction)
    ensures AllowedException(tx) <==>
      var safe, c := SafeId(tx.safe, tx.chainId), RootCall(tx);
      || (SelfCall(safe, c, DISABLE_MODULE) && AllowedDisableModule(c))
      || (SelfCall(safe, c, SET_FALLBACK_HANDLER) && AllowedSetFallbackHandler(c))
  {
    var c := RootCall(tx);
    if |c.data| >= 4 {
      if c.data[..4] == DISABLE_MODULE { DisableModuleData(c); }
      if c.data[..4] == SET_FALLBACK_HANDLER { SetFallbackHandlerData(c); }
    }
  }

  // The transaction's own calls are all secure exactly when it is decided secure.
  lemma OwnCallsSecure(multiSends: MultiSends, tx: SafeTransaction)
    ensures (forall c :: c in ExpandTransactionCalls(multiSends, tx) ==>
               SecureCall(multiSends, SafeId(tx.safe, tx.chainId), c))
       <==> DecidedSecure(multiSends, tx)
  {
    var safe, own, root := SafeId(tx.safe, tx.chainId), ExpandTransactionCalls(multiSends, tx), RootCall(tx);
    var e := Expand(multiSends, tx.safe, root);
    if e.Reverts? || e.calls == [] {
      assert tx.to in multiSends && own == [if e.Reverts? then RevertingMultiSend(tx.to) else EmptyMultiSend(tx.to)];
    } else {
      ExpandShape(multiSends, tx.safe, root);
      AllowedExceptionData(tx);
      assert own[0] in own;
      if RunsMultiSend(multiSends, root) {
        assert forall c :: c in own ==> (SecureCall(multiSends, safe, c) <==> Cancels(tx, c));
        assert own != [root] by { assert own[0].kind == Batched; }
      } else {
        if tx.to in multiSends { PlaceholdersExpand(multiSends, tx.safe, tx.to); }
        assert own == [root];
        assert SecureCall(multiSends, safe, root) <==> AllowedException(tx) || Cancels(tx, root);
      }
    }
  }

  // A refund is never secure, so that the calls are exactly if there is none and the
  // transaction's own are.
  lemma {:induction false} ComponentsSecure(multiSends: MultiSends, tx: SafeTransaction, safe: SafeId)
    requires Refundable(tx)
    ensures (forall c :: c in ComponentCalls(multiSends, tx) ==> SecureCall(multiSends, safe, c))
       <==> tx.gasPrice == 0 && forall c :: c in ExpandTransactionCalls(multiSends, tx) ==> SecureCall(multiSends, safe, c)
  {
    var calls, own := ComponentCalls(multiSends, tx), ExpandTransactionCalls(multiSends, tx);
    if tx.gasPrice == 0 {
      assert calls == own;
    } else {
      var refund := GasRefund(tx).value;
      assert calls[|own|] == refund && !SecureCall(multiSends, safe, refund);
    }
  }

  // Classify finds a request secure exactly when its Safe is one that the Charter
  // covers, on a network that it covers, and can be read, it pays no refund, and
  // its calls are ones that the checks find secure.
  lemma SecureExactly(multiSends: MultiSends, env: Env, request: Request, tx: SafeTransaction, at: Env, safe: SafeId)
    requires IsJudged(request, env, tx, at, safe)
    ensures IsSecure(Classify(AllChecks(multiSends), multiSends, env, request))
       <==> Covered(at, safe) && tx.gasPrice == 0 && DecidedSecure(multiSends, tx)
  {
    SecureExactlyByCalls(multiSends, at, safe, ComponentCalls(multiSends, tx));
    OwnCallsSecure(multiSends, tx);
    ComponentsSecure(multiSends, tx, safe);
  }
}

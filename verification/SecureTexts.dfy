// What a request that is found secure is described with.
module SecureTexts {
  import opened Wrappers
  import opened EthTypes
  import opened SolAbi
  import opened Calls
  import opened MultiSendExpander
  import opened MultiSendTheorems
  import opened Components
  import opened ComponentsTheorems
  import opened SafeVersions
  import opened Checks
  import opened ClassifyTheorems

  const CALLS_SAFE := "calls the Safe with no data or value, as a cancellation does"
  const CALLS_ZERO := "calls the zero address with no data or value, as a cancellation does"

  function CancelText(tx: SafeTransaction, c: Call): string {
    if c.to == tx.safe then CALLS_SAFE else CALLS_ZERO
  }

  // The descriptions of calls that do nothing: the first call's, and the other one if a
  // later call has it.
  function CancelTexts(tx: SafeTransaction, calls: seq<Call>): string
    requires calls != []
  {
    var first := CancelText(tx, calls[0]);
    var other := if first == CALLS_SAFE then CALLS_ZERO else CALLS_SAFE;
    if exists c :: c in calls && CancelText(tx, c) == other then first + "; " + other else first
  }

  // The description of a request that is decided secure.
  function SecureText(multiSends: MultiSends, tx: SafeTransaction): string {
    match Expand(multiSends, tx.safe, RootCall(tx))
    case Reverts => "MultiSend call that always reverts"
    case Expanded(calls) =>
      if calls == [] then "MultiSend that makes no calls"
      else if calls[0].data == [] then CancelTexts(tx, calls)
      else if DISABLE_MODULE <= tx.data then "calls disableModule on the Safe as R-4.1 allows"
      else "calls setFallbackHandler on the Safe to remove the handler as R-4.1 allows"
  }

  // ---- The first secure check that matches ---------------------------------------------

  lemma {:induction false} FirstMatchAt(checks: seq<Check>, env: Env, safe: SafeId, c: Call, i: nat)
    requires AllAnswerFor(checks, env, safe, c) && i < |checks| && Matches(checks[i], env, safe, c)
    requires forall k :: 0 <= k < i ==> !Matches(checks[k], env, safe, c)
    ensures FirstMatch(checks, env, safe, c) == Ok(Some(i))
  {
    if i > 0 {
      var rest := checks[1..];
      assert forall k :: 0 <= k < |rest| ==> rest[k] == checks[k + 1];
      assert !Matches(checks[0], env, safe, c) && checks[0].fn(env, safe, c).Ok?;
      FirstMatchAt(rest, env, safe, c, i - 1);
    }
  }

  // What secure check k is of.
  predicate IsKind(multiSends: MultiSends, safe: SafeId, c: Call, k: int) {
    match k
    case 0 => c.to in multiSends && c == EmptyMultiSend(c.to)
    case 1 => c.to in multiSends && c == RevertingMultiSend(c.to)
    case 2 => SelfCall(safe, c, DISABLE_MODULE) && AllowedDisableModule(c)
    case 3 => SelfCall(safe, c, SET_FALLBACK_HANDLER) && AllowedSetFallbackHandler(c)
    case 4 => EmptyCall(c, safe.address)
    case _ => EmptyCall(c, ZERO_ADDRESS)
  }

  lemma {:induction false} KindMatches(multiSends: MultiSends, env: Env, safe: SafeId, c: Call)
    ensures |SecureChecks(multiSends)| == 6
    ensures forall k :: 0 <= k < 6 ==> (Matches(SecureChecks(multiSends)[k], env, safe, c) <==> IsKind(multiSends, safe, c, k))
  {
    var checks := SecureChecks(multiSends);
    assert Matches(checks[0], env, safe, c) <==> IsKind(multiSends, safe, c, 0);
    assert Matches(checks[1], env, safe, c) <==> IsKind(multiSends, safe, c, 1);
    assert Matches(checks[2], env, safe, c) <==> IsKind(multiSends, safe, c, 2);
    assert Matches(checks[3], env, safe, c) <==> IsKind(multiSends, safe, c, 3);
    assert Matches(checks[4], env, safe, c) <==> IsKind(multiSends, safe, c, 4);
    assert Matches(checks[5], env, safe, c) <==> IsKind(multiSends, safe, c, 5);
  }

  predicate IsFirstKind(multiSends: MultiSends, safe: SafeId, c: Call, i: nat) {
    i < 6 && IsKind(multiSends, safe, c, i) && forall k :: 0 <= k < i ==> !IsKind(multiSends, safe, c, k)
  }

  // The check that is the first one to match a secure call.
  lemma {:induction false} FirstKindMatches(multiSends: MultiSends, env: Env, safe: SafeId, c: Call, i: nat)
    requires IsFirstKind(multiSends, safe, c, i)
    ensures FirstMatch(SecureChecks(multiSends), env, safe, c) == Ok(Some(i))
  {
    KindMatches(multiSends, env, safe, c);
    SecureMatches(multiSends, env, safe, c);
    FirstMatchAt(SecureChecks(multiSends), env, safe, c, i);
  }

  lemma SecureTextsAre(multiSends: MultiSends)
    ensures var checks := SecureChecks(multiSends);
            && |checks| == 6
            && checks[0].description == "MultiSend that makes no calls"
            && checks[1].description == "MultiSend call that always reverts"
            && checks[2].description == "calls disableModule on the Safe as R-4.1 allows"
            && checks[3].description == "calls setFallbackHandler on the Safe to remove the handler as R-4.1 allows"
            && checks[4].description == CALLS_SAFE && checks[5].description == CALLS_ZERO
  {
  }

  lemma {:induction false} CancelIsKind(multiSends: MultiSends, safe: SafeId, tx: SafeTransaction, c: Call)
    requires safe.address == tx.safe && Cancels(tx, c) && c.kind != Refund
    requires c.kind == Root ==> c.to !in multiSends
    ensures IsFirstKind(multiSends, safe, c, if c.to == tx.safe then 4 else 5)
  {
  }

  // ---- The descriptions of cancellations --------------------------------------------------

  // Calls that do nothing, of a transaction that isn't to a MultiSend.
  predicate AllCancel(multiSends: MultiSends, tx: SafeTransaction, calls: seq<Call>) {
    forall c :: c in calls ==> Cancels(tx, c) && c.kind != Refund && (c.kind == Root ==> c.to !in multiSends)
  }

  // Checks whose last two match such calls to the Safe, and to the zero address.
  predicate Describe(checks: seq<Check>, env: Env, safe: SafeId, tx: SafeTransaction, calls: seq<Call>) {
    && |checks| == 6 && checks[4].description == CALLS_SAFE && checks[5].description == CALLS_ZERO
    && forall c :: c in calls ==> FirstMatch(checks, env, safe, c) == Ok(Some(if c.to == tx.safe then 4 else 5))
  }

  lemma {:induction false} CancelsDescribe(
    multiSends: MultiSends, env: Env, safe: SafeId, tx: SafeTransaction, calls: seq<Call>)
    requires safe.address == tx.safe && AllCancel(multiSends, tx, calls)
    ensures Describe(SecureChecks(multiSends), env, safe, tx, calls)
  {
    SecureTextsAre(multiSends);
    forall c | c in calls
      ensures FirstMatch(SecureChecks(multiSends), env, safe, c) == Ok(Some(if c.to == tx.safe then 4 else 5)) {
      CancelIsKind(multiSends, safe, tx, c);
      FirstKindMatches(multiSends, env, safe, c, if c.to == tx.safe then 4 else 5);
    }
  }

  lemma {:induction false} DescribeNext(
    checks: seq<Check>, env: Env, safe: SafeId, tx: SafeTransaction, calls: seq<Call>, found: seq<string>)
    requires calls != [] && Describe(checks, env, safe, tx, calls)
    ensures Describe(checks, env, safe, tx, calls[1..])
    ensures Descriptions(checks, env, safe, calls, found)
         == Descriptions(checks, env, safe, calls[1..], Include(found, CancelText(tx, calls[0])))
  {
    assert calls[0] in calls;
  }

  lemma {:induction false} DescribeBoth(
    checks: seq<Check>, env: Env, safe: SafeId, tx: SafeTransaction, calls: seq<Call>, found: seq<string>)
    requires Describe(checks, env, safe, tx, calls) && CALLS_SAFE in found && CALLS_ZERO in found
    ensures Descriptions(checks, env, safe, calls, found) == Ok(Some(found))
  {
    if calls != [] {
      DescribeNext(checks, env, safe, tx, calls, found);
      DescribeBoth(checks, env, safe, tx, calls[1..], found);
    }
  }

  lemma {:induction false} DescribeOne(
    checks: seq<Check>, env: Env, safe: SafeId, tx: SafeTransaction, calls: seq<Call>, first: string, other: string)
    requires Describe(checks, env, safe, tx, calls)
    requires first != other && ((first == CALLS_SAFE && other == CALLS_ZERO) || (first == CALLS_ZERO && other == CALLS_SAFE))
    ensures Descriptions(checks, env, safe, calls, [first])
         == Ok(Some(if exists c :: c in calls && CancelText(tx, c) == other then [first] + [other] else [first]))
  {
    if calls != [] {
      var text := CancelText(tx, calls[0]);
      DescribeNext(checks, env, safe, tx, calls, [first]);
      assert calls == [calls[0]] + calls[1..];
      if text == first {
        DescribeOne(checks, env, safe, tx, calls[1..], first, other);
      } else {
        assert calls[0] in calls && Include([first], text) == [first] + [other];
        DescribeBoth(checks, env, safe, tx, calls[1..], [first] + [other]);
      }
    }
  }

  lemma TextsDiffer()
    ensures CALLS_SAFE != CALLS_ZERO
  {
    assert |CALLS_SAFE| != |CALLS_ZERO|;
  }

  lemma {:induction false} JoinTwo(a: string, b: string)
    ensures Join([a], "; ") == a && Join([a] + [b], "; ") == a + "; " + b
  {
    assert ([a] + [b])[1..] == [b];
  }

  lemma {:induction false} DescribeCancels(
    checks: seq<Check>, env: Env, safe: SafeId, tx: SafeTransaction, calls: seq<Call>)
    requires calls != [] && Describe(checks, env, safe, tx, calls)
    ensures var texts := Descriptions(checks, env, safe, calls, []);
            IsSome(texts) && Join(texts.value.value, "; ") == CancelTexts(tx, calls)
  {
    TextsDiffer();
    var first := CancelText(tx, calls[0]);
    var other := if first == CALLS_SAFE then CALLS_ZERO else CALLS_SAFE;
    DescribeNext(checks, env, safe, tx, calls, []);
    assert Include([], first) == [first];
    DescribeOne(checks, env, safe, tx, calls[1..], first, other);
    assert calls == [calls[0]] + calls[1..];
    JoinTwo(first, other);
  }

  // ---- The description of a transaction ---------------------------------------------------

  lemma {:induction false} DescribeAlone(checks: seq<Check>, env: Env, safe: SafeId, c: Call, i: nat)
    requires i < |checks| && FirstMatch(checks, env, safe, c) == Ok(Some(i))
    ensures Descriptions(checks, env, safe, [c], []) == Ok(Some([checks[i].description]))
  {
    assert [c][1..] == [] && Include([], checks[i].description) == [checks[i].description];
  }

  lemma {:induction false} PlaceholdersAreKinds(multiSends: MultiSends, safe: SafeId, to: Address)
    requires to in multiSends
    ensures IsFirstKind(multiSends, safe, EmptyMultiSend(to), 0)
    ensures IsFirstKind(multiSends, safe, RevertingMultiSend(to), 1)
  {
    EmptyMultiSendData();
  }

  lemma {:induction false} ExceptionIsKind(multiSends: MultiSends, safe: SafeId, tx: SafeTransaction)
    requires AllowedException(tx) && safe == SafeId(tx.safe, tx.chainId)
    ensures tx.data != []
    ensures IsFirstKind(multiSends, safe, RootCall(tx), if DISABLE_MODULE <= tx.data then 2 else 3)
  {
    var c := RootCall(tx);
    AllowedExceptionData(tx);
    if !(SelfCall(safe, c, DISABLE_MODULE) && AllowedDisableModule(c)) {
      assert c.data[0] != DISABLE_MODULE[0];
    }
  }

  lemma {:induction false} DescribeOwn(multiSends: MultiSends, env: Env, safe: SafeId, tx: SafeTransaction)
    requires safe == SafeId(tx.safe, tx.chainId) && DecidedSecure(multiSends, tx)
    ensures var texts := Descriptions(SecureChecks(multiSends), env, safe, ExpandTransactionCalls(multiSends, tx), []);
            IsSome(texts) && Join(texts.value.value, "; ") == SecureText(multiSends, tx)
  {
    var e := Expand(multiSends, tx.safe, RootCall(tx));
    SecureTextsAre(multiSends);
    if e.Reverts? || e.calls == [] {
      var c, i := if e.Reverts? then RevertingMultiSend(tx.to) else EmptyMultiSend(tx.to), if e.Reverts? then 1 else 0;
      PlaceholdersAreKinds(multiSends, safe, tx.to);
      FirstKindMatches(multiSends, env, safe, c, i);
      DescribeAlone(SecureChecks(multiSends), env, safe, c, i);
    } else if e.calls == [RootCall(tx)] && AllowedException(tx) {
      var i := if DISABLE_MODULE <= tx.data then 2 else 3;
      ExceptionIsKind(multiSends, safe, tx);
      FirstKindMatches(multiSends, env, safe, RootCall(tx), i);
      DescribeAlone(SecureChecks(multiSends), env, safe, RootCall(tx), i);
    } else {
      CancelsAreAlone(multiSends, tx);
      CancelsDescribe(multiSends, env, safe, tx, e.calls);
      DescribeCancels(SecureChecks(multiSends), env, safe, tx, e.calls);
      assert e.calls[0] in e.calls;
    }
  }

  lemma {:induction false} CancelsAreAlone(multiSends: MultiSends, tx: SafeTransaction)
    requires var e := Expand(multiSends, tx.safe, RootCall(tx)); e.Expanded? && forall c :: c in e.calls ==> Cancels(tx, c)
    ensures AllCancel(multiSends, tx, Expand(multiSends, tx.safe, RootCall(tx)).calls)
  {
    ExpandShape(multiSends, tx.safe, RootCall(tx));
  }

  // A request that Classify finds secure is described by what makes it so: a revert, no
  // calls, the exception that it is, or what its calls that do nothing are to.
  lemma {:induction false} SecureExactText(
    multiSends: MultiSends, env: Env, request: Request, tx: SafeTransaction, at: Env, safe: SafeId)
    requires IsJudged(request, env, tx, at, safe)
    requires Covered(at, safe) && tx.gasPrice == 0 && DecidedSecure(multiSends, tx)
    ensures Classify(AllChecks(multiSends), multiSends, env, request)
         == Ok(Classification(Secure, "", SecureText(multiSends, tx)))
  {
    var insecure, secure, calls := INSECURE_CHECKS, SecureChecks(multiSends), ComponentCalls(multiSends, tx);
    assert calls == ExpandTransactionCalls(multiSends, tx);
    OwnCallsSecure(multiSends, tx);
    InsecureVerdicts();
    CoveredSecureBreaksNothing(multiSends, at, safe, calls);
    SecureIndexSplit(insecure, secure);
    assert (insecure + secure)[..|insecure|] == insecure && (insecure + secure)[|insecure|..] == secure;
    DescribeOwn(multiSends, at, safe, tx);
  }
}

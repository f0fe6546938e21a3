// The classifier of internal/checks: its checks, and the loops that run them.
module Checks {
  import opened Wrappers
  import opened EthTypes
  import opened Calls
  import opened MultiSendExpander
  import opened Components
  import opened SafeVersions

  datatype Verdict = Unclassified | Secure | Insecure

  datatype Classification = Classification(verdict: Verdict, rule: string, description: string)

  const UNCLASSIFIED := Classification(Unclassified, "", "")

  // Whether a call that the Safe makes is in a check's class, or an error reading
  // the chain.
  type CheckFn = (Env, SafeId, Call) -> Result<bool>

  datatype Check = Check(verdict: Verdict, rule: string, description: string, fn: CheckFn)
  {
    function Class(): Classification {
      Classification(verdict, rule, description)
    }
  }

  // ---- The checks ------------------------------------------------------------

  const ADD_OWNER: Bytes := [0x0d, 0x58, 0x2f, 0x13]
  const REMOVE_OWNER: Bytes := [0xf8, 0xdc, 0x5d, 0xd9]
  const SWAP_OWNER: Bytes := [0xe3, 0x18, 0xb5, 0x2b]
  const CHANGE_THRESHOLD: Bytes := [0x69, 0x4e, 0x80, 0xc3]
  const ENABLE_MODULE: Bytes := [0x61, 0x0b, 0x59, 0x25]
  const DISABLE_MODULE: Bytes := [0xe0, 0x09, 0xcf, 0xde]
  const SET_GUARD: Bytes := [0xe1, 0x9a, 0x9d, 0xd9]
  const SET_FALLBACK_HANDLER: Bytes := [0xf0, 0x8a, 0x03, 0x23]
  const SET_MODULE_GUARD: Bytes := [0xe0, 0x68, 0xdf, 0x37]

  // A call by the Safe to its own function with selector.
  predicate SelfCall(safe: SafeId, c: Call, selector: Bytes) {
    c.to == safe.address && c.operation == CALL && |c.data| >= 4 && c.data[..4] == selector
  }

  // The conditions of the allowed exceptions that don't depend on the function.
  predicate CanonicalRootCall(c: Call, args: nat) {
    && c.kind == Root && c.value == 0 && |c.data| == 4 + 32 * args
    && forall i :: 0 <= i < args ==> IsZero(c.data[4 + 32 * i..4 + 32 * i + 12])
  }

  predicate AllowedDisableModule(c: Call) {
    CanonicalRootCall(c, 2)
  }

  predicate AllowedSetFallbackHandler(c: Call) {
    CanonicalRootCall(c, 1) && c.data[4..] == ZERO_WORD
  }

  // Whether a call adds the owner in argument i, which is the zero address or the
  // sentinel.
  predicate AddsInvalidOwner(c: Call, i: nat) {
    |c.data| >= 4 + 32 * i + 32 &&
    var owner := c.data[4 + 32 * i + 12..4 + 32 * i + 32];
    owner == ZERO_ADDRESS || owner == SENTINEL
  }

  // A call with no data or value to the account at to, other than the refund.
  predicate EmptyCall(c: Call, to: Address) {
    c.kind != Refund && c.to == to && c.operation == CALL && c.value == 0 && |c.data| == 0
  }

  predicate IsVersion150(version: string) {
    version == "1.5.0" || version == "1.5.0+L2"
  }

  // Why a settings-change check abstains on a call with all of its arguments.
  datatype Abstain =
    | Never
    | OnInvalidOwner(arg: nat)
    | OnDisableModuleException
    | OnFallbackHandlerException
    | BeforeModuleGuards

  function Abstains(abstain: Abstain, env: Env, safe: SafeId, c: Call): Result<bool> {
    match abstain
    case Never => Ok(false)
    case OnInvalidOwner(arg) => Ok(AddsInvalidOwner(c, arg))
    case OnDisableModuleException => Ok(AllowedDisableModule(c))
    case OnFallbackHandlerException => Ok(AllowedSetFallbackHandler(c))
    case BeforeModuleGuards =>
      match SafeVersion(env, safe)
      case Err => Err
      case Ok(version) => Ok(!IsVersion150(version))
  }

  function ChangesSetting(selector: Bytes, args: nat, abstain: Abstain, env: Env, safe: SafeId, c: Call): Result<bool> {
    if !SelfCall(safe, c, selector) || |c.data| < 4 + 32 * args then Ok(false)
    else match Abstains(abstain, env, safe, c) case Err => Err case Ok(skip) => Ok(!skip)
  }

  function SettingsChange(selector: Bytes, args: nat, description: string, abstain: Abstain): Check {
    Check(Insecure, "R-4.1", description,
          (env: Env, safe: SafeId, c: Call) => ChangesSetting(selector, args, abstain, env, safe, c))
  }

  predicate OffNetwork(safe: SafeId) {
    !(0 <= safe.chainId < UINT64 && safe.chainId in NETWORKS)
  }

  const OFF_NETWORK := Check(Insecure, "R-4.0", "Safe on a network that the Charter doesn't cover",
    (_: Env, safe: SafeId, _: Call) => Ok(OffNetwork(safe)))

  const UNSUPPORTED_SAFE := Check(Insecure, "R-4.0", "account that isn't a Safe of a version that the Charter covers",
    (env: Env, safe: SafeId, _: Call) =>
      match SafeVersion(env, safe) case Err => Err case Ok(version) => Ok(version == ""))

  const INSECURE_CHECKS: seq<Check> := [
    OFF_NETWORK,
    UNSUPPORTED_SAFE,
    SettingsChange(ADD_OWNER, 2, "calls addOwnerWithThreshold on the Safe", OnInvalidOwner(0)),
    SettingsChange(REMOVE_OWNER, 3, "calls removeOwner on the Safe", Never),
    SettingsChange(SWAP_OWNER, 3, "calls swapOwner on the Safe", OnInvalidOwner(2)),
    SettingsChange(CHANGE_THRESHOLD, 1, "calls changeThreshold on the Safe", Never),
    SettingsChange(ENABLE_MODULE, 1, "calls enableModule on the Safe", Never),
    SettingsChange(DISABLE_MODULE, 2, "calls disableModule on the Safe outside the allowed exception",
                   OnDisableModuleException),
    SettingsChange(SET_GUARD, 1, "calls setGuard on the Safe", Never),
    SettingsChange(SET_FALLBACK_HANDLER, 1, "calls setFallbackHandler on the Safe outside the allowed exception",
                   OnFallbackHandlerException),
    SettingsChange(SET_MODULE_GUARD, 1, "calls setModuleGuard on a Safe 1.5.0", BeforeModuleGuards)
  ]

  function SecureChecks(multiSends: MultiSends): seq<Check> {
    [ Check(Secure, "", "MultiSend that makes no calls",
            (_: Env, _: SafeId, c: Call) => Ok(c.to in multiSends && c == EmptyMultiSend(c.to))),
      Check(Secure, "", "MultiSend call that always reverts",
            (_: Env, _: SafeId, c: Call) => Ok(c.to in multiSends && c == RevertingMultiSend(c.to))),
      Check(Secure, "", "calls disableModule on the Safe as R-4.1 allows",
            (_: Env, safe: SafeId, c: Call) => Ok(SelfCall(safe, c, DISABLE_MODULE) && AllowedDisableModule(c))),
      Check(Secure, "", "calls setFallbackHandler on the Safe to remove the handler as R-4.1 allows",
            (_: Env, safe: SafeId, c: Call) => Ok(SelfCall(safe, c, SET_FALLBACK_HANDLER) && AllowedSetFallbackHandler(c))),
      Check(Secure, "", "calls the Safe with no data or value, as a cancellation does",
            (_: Env, safe: SafeId, c: Call) => Ok(EmptyCall(c, safe.address))),
      Check(Secure, "", "calls the zero address with no data or value, as a cancellation does",
            (_: Env, _: SafeId, c: Call) => Ok(EmptyCall(c, ZERO_ADDRESS)))
    ]
  }

  function AllChecks(multiSends: MultiSends): seq<Check> {
    INSECURE_CHECKS + SecureChecks(multiSends)
  }

  // ---- What classify computes ----------------------------------------------------

  // The first of checks that matches c, an error of one before it, or neither.
  function FirstMatch(checks: seq<Check>, env: Env, safe: SafeId, c: Call): (first: Result<Option<nat>>)
    ensures first.Ok? && first.value.Some? ==> first.value.value < |checks|
  {
    if checks == [] then Ok(None)
    else
      match checks[0].fn(env, safe, c)
      case Err => Err
      case Ok(true) => Ok(Some(0))
      case Ok(false) =>
        match FirstMatch(checks[1..], env, safe, c)
        case Ok(Some(i)) => Ok(Some(i + 1))
        case other => other
  }

  // Whether check matches one of calls, or an error on one before it.
  function MatchesAny(check: Check, env: Env, safe: SafeId, calls: seq<Call>): Result<bool> {
    if calls == [] then Ok(false)
    else
      match check.fn(env, safe, calls[0])
      case Ok(false) => MatchesAny(check, env, safe, calls[1..])
      case other => other
  }

  // The first of checks that matches one of calls, an error before it, or neither.
  function FirstBroken(checks: seq<Check>, env: Env, safe: SafeId, calls: seq<Call>): (first: Result<Option<nat>>)
    ensures first.Ok? && first.value.Some? ==> first.value.value < |checks|
  {
    if checks == [] then Ok(None)
    else
      match MatchesAny(checks[0], env, safe, calls)
      case Err => Err
      case Ok(true) => Ok(Some(0))
      case Ok(false) =>
        match FirstBroken(checks[1..], env, safe, calls)
        case Ok(Some(i)) => Ok(Some(i + 1))
        case other => other
  }

  // found followed by the description of the first check that matches each of
  // calls, unless it is there already, or None if a call has no match.
  function Descriptions(checks: seq<Check>, env: Env, safe: SafeId, calls: seq<Call>, found: seq<string>)
    : Result<Option<seq<string>>>
  {
    if calls == [] then Ok(Some(found))
    else
      match FirstMatch(checks, env, safe, calls[0])
      case Err => Err
      case Ok(None) => Ok(None)
      case Ok(Some(i)) => Descriptions(checks, env, safe, calls[1..], Include(found, checks[i].description))
  }

  function Include(found: seq<string>, description: string): seq<string> {
    if description in found then found else found + [description]
  }

  function Join(parts: seq<string>, separator: string): string {
    if parts == [] then "" else if |parts| == 1 then parts[0] else parts[0] + separator + Join(parts[1..], separator)
  }

  // The index of the first secure check, or the number of checks.
  function SecureIndex(checks: seq<Check>): (i: nat)
    ensures i <= |checks|
  {
    if checks == [] || checks[0].verdict == Secure then 0 else 1 + SecureIndex(checks[1..])
  }

  function ClassifyCalls(checks: seq<Check>, env: Env, safe: SafeId, calls: seq<Call>): Result<Classification> {
    var secure := SecureIndex(checks);
    match FirstBroken(checks[..secure], env, safe, calls)
    case Err => Err
    case Ok(Some(i)) => Ok(checks[i].Class())
    case Ok(None) =>
      match Descriptions(checks[secure..], env, safe, calls, [])
      case Err => Err
      case Ok(None) => Ok(UNCLASSIFIED)
      case Ok(Some(descriptions)) => Ok(Classification(Secure, "", Join(descriptions, "; ")))
  }

  function Classify(checks: seq<Check>, multiSends: MultiSends, env: Env, request: Request): Result<Classification>
    requires request.HasAmounts() ==> Refundable(request.Transaction())
  {
    if !request.HasAmounts() || request.safeBlock == 0 then Err
    else
      var tx := request.Transaction();
      ClassifyCalls(checks, env.(block := request.safeBlock), SafeId(tx.safe, tx.chainId), ComponentCalls(multiSends, tx))
  }

  // ---- The loops ------------------------------------------------------------------

  method RunFirstMatch(checks: seq<Check>, env: Env, safe: SafeId, c: Call) returns (first: Result<Option<nat>>)
    ensures first == FirstMatch(checks, env, safe, c)
  {
    for i := 0 to |checks|
      invariant FirstMatch(checks, env, safe, c)
             == match FirstMatch(checks[i..], env, safe, c) case Ok(Some(k)) => Ok(Some(i + k)) case other => other
    {
      assert checks[i..][0] == checks[i] && checks[i..][1..] == checks[i + 1..];
      var matched := checks[i].fn(env, safe, c);
      if matched.Err? { return Err; }
      if matched.value { return Ok(Some(i)); }
    }
    return Ok(None);
  }

  method RunInsecure(checks: seq<Check>, env: Env, safe: SafeId, calls: seq<Call>) returns (first: Result<Option<nat>>)
    ensures first == FirstBroken(checks, env, safe, calls)
  {
    for i := 0 to |checks|
      invariant FirstBroken(checks, env, safe, calls)
             == match FirstBroken(checks[i..], env, safe, calls) case Ok(Some(k)) => Ok(Some(i + k)) case other => other
    {
      assert checks[i..][0] == checks[i] && checks[i..][1..] == checks[i + 1..];
      for j := 0 to |calls|
        invariant MatchesAny(checks[i], env, safe, calls) == MatchesAny(checks[i], env, safe, calls[j..])
      {
        assert calls[j..][0] == calls[j] && calls[j..][1..] == calls[j + 1..];
        var matched := checks[i].fn(env, safe, calls[j]);
        if matched.Err? { return Err; }
        if matched.value { return Ok(Some(i)); }
      }
    }
    return Ok(None);
  }

  // classify, with the checks grouped by verdict.
  method RunClassify(checks: seq<Check>, multiSends: MultiSends, env: Env, request: Request)
    returns (result: Result<Classification>)
    requires request.HasAmounts() ==> Refundable(request.Transaction())
    ensures result == Classify(checks, multiSends, env, request)
  {
    var components := RunComponents(multiSends, request);
    if components.Err? || request.safeBlock == 0 { return Err; }
    var tx, calls := request.Transaction(), components.value;
    var at, safe := env.(block := request.safeBlock), SafeId(tx.safe, tx.chainId);
    var secure := SecureIndex(checks);
    var broken := RunInsecure(checks[..secure], at, safe, calls);
    if broken.Err? { return Err; }
    if broken.value.Some? { return Ok(checks[broken.value.value].Class()); }

    var descriptions: seq<string> := [];
    for i := 0 to |calls|
      invariant Descriptions(checks[secure..], at, safe, calls, [])
             == Descriptions(checks[secure..], at, safe, calls[i..], descriptions)
    {
      assert calls[i..][0] == calls[i] && calls[i..][1..] == calls[i + 1..];
      var first := RunFirstMatch(checks[secure..], at, safe, calls[i]);
      if first.Err? { return Err; }
      if first.value.None? { return Ok(UNCLASSIFIED); }
      var d := checks[secure + first.value.value].description;
      if d !in descriptions {
        descriptions := descriptions + [d];
      }
    }
    return Ok(Classification(Secure, "", Join(descriptions, "; ")));
  }
}

// Exactly which requests the checks find insecure, in terms of the bytes of the calls:
// the changes of a Safe's settings that R-4.1 of the Charter is about.
module SettingsTheorems {
  import opened Wrappers
  import opened EthTypes
  import opened SolAbi
  import opened SolAbiTheorems
  import opened Calls
  import opened MultiSendExpander
  import opened Components
  import opened SafeVersions
  import opened Checks
  import opened ClassifyTheorems

  // The Safe's functions that change its settings, in the order that they are looked for.
  datatype Setter =
    | AddOwner
    | RemoveOwner
    | SwapOwner
    | ChangeThreshold
    | EnableModule
    | DisableModule
    | SetGuard
    | SetFallbackHandler
    | SetModuleGuard

  const SETTERS := [
    AddOwner, RemoveOwner, SwapOwner, ChangeThreshold, EnableModule, DisableModule, SetGuard, SetFallbackHandler,
    SetModuleGuard]

  function Selector(setter: Setter): Bytes {
    match setter
    case AddOwner => ADD_OWNER
    case RemoveOwner => REMOVE_OWNER
    case SwapOwner => SWAP_OWNER
    case ChangeThreshold => CHANGE_THRESHOLD
    case EnableModule => ENABLE_MODULE
    case DisableModule => DISABLE_MODULE
    case SetGuard => SET_GUARD
    case SetFallbackHandler => SET_FALLBACK_HANDLER
    case SetModuleGuard => SET_MODULE_GUARD
  }

  // The bytes of the function's arguments.
  function ArgumentBytes(setter: Setter): nat {
    match setter
    case AddOwner => 64
    case RemoveOwner => 96
    case SwapOwner => 96
    case DisableModule => 64
    case _ => 32
  }

  function Description(setter: Setter): string {
    match setter
    case AddOwner => "calls addOwnerWithThreshold on the Safe"
    case RemoveOwner => "calls removeOwner on the Safe"
    case SwapOwner => "calls swapOwner on the Safe"
    case ChangeThreshold => "calls changeThreshold on the Safe"
    case EnableModule => "calls enableModule on the Safe"
    case DisableModule => "calls disableModule on the Safe outside the allowed exception"
    case SetGuard => "calls setGuard on the Safe"
    case SetFallbackHandler => "calls setFallbackHandler on the Safe outside the allowed exception"
    case SetModuleGuard => "calls setModuleGuard on a Safe 1.5.0"
  }

  // An address that can't be an owner: zero, or the one that starts the list.
  predicate IsNoOwner(owner: Bytes) {
    |owner| == 20 && (forall i :: 0 <= i < 19 ==> owner[i] == 0) && owner[19] <= 1
  }

  // The calls that the Charter's exceptions to R-4.1, and the checks, leave out.
  predicate IsExcepted(setter: Setter, version: string, c: Call)
    requires |c.data| >= 4 + ArgumentBytes(setter)
  {
    match setter
    case AddOwner => IsNoOwner(c.data[16..36])
    case SwapOwner => IsNoOwner(c.data[80..100])
    case DisableModule =>
      && c.kind == Root && c.value == 0 && |c.data| == 68
      && (forall i :: 4 <= i < 16 ==> c.data[i] == 0) && (forall i :: 36 <= i < 48 ==> c.data[i] == 0)
    case SetFallbackHandler =>
      c.kind == Root && c.value == 0 && |c.data| == 36 && forall i :: 4 <= i < 36 ==> c.data[i] == 0
    case SetModuleGuard => version != "1.5.0" && version != "1.5.0+L2"
    case _ => false
  }

  // A call by the Safe to its own function, with all of its arguments, that isn't left out.
  predicate Sets(setter: Setter, version: string, safe: Address, c: Call) {
    && c.to == safe && c.operation == 0
    && |c.data| >= 4 + ArgumentBytes(setter) && c.data[..4] == Selector(setter)
    && !IsExcepted(setter, version, c)
  }

  predicate AnySets(setter: Setter, version: string, safe: Address, calls: seq<Call>) {
    exists c :: c in calls && Sets(setter, version, safe, c)
  }

  // ---- The checks ------------------------------------------------------------------------

  lemma NoOwnerIs(owner: Address)
    ensures IsNoOwner(owner) <==> owner == ZERO_ADDRESS || owner == SENTINEL
  {
    if IsNoOwner(owner) {
      assert owner == if owner[19] == 0 then ZERO_ADDRESS else SENTINEL;
    }
  }

  // Check k + 2 is of function k.
  lemma CheckOf(k: nat)
    requires k < |SETTERS|
    ensures |INSECURE_CHECKS| == |SETTERS| + 2
    ensures INSECURE_CHECKS[k + 2].Class() == Classification(Insecure, "R-4.1", Description(SETTERS[k]))
  {
  }

  lemma {:induction false} DisableModuleIsExcepted(c: Call)
    requires |c.data| >= 68
    ensures AllowedDisableModule(c) <==> IsExcepted(DisableModule, "", c)
  {
    if |c.data| == 68 {
      assert forall i :: 0 <= i < 12 ==> c.data[4..16][i] == c.data[i + 4] && c.data[36..48][i] == c.data[i + 36];
      if IsExcepted(DisableModule, "", c) {
        assert IsZero(c.data[4..16]) && IsZero(c.data[36..48]);
      }
      if AllowedDisableModule(c) {
        assert IsZero(c.data[4 + 32 * 0..4 + 32 * 0 + 12]) && IsZero(c.data[4 + 32 * 1..4 + 32 * 1 + 12]);
        forall i | 4 <= i < 16 || 36 <= i < 48 ensures c.data[i] == 0 {
          assert i < 16 ==> c.data[i] == c.data[4..16][i - 4];
          assert i >= 36 ==> c.data[i] == c.data[36..48][i - 36];
        }
      }
    }
  }

  lemma {:induction false} FallbackHandlerIsExcepted(c: Call)
    requires |c.data| >= 36
    ensures AllowedSetFallbackHandler(c) <==> IsExcepted(SetFallbackHandler, "", c)
  {
    if |c.data| == 36 {
      assert forall i :: 0 <= i < 32 ==> c.data[4..][i] == c.data[i + 4];
      if IsExcepted(SetFallbackHandler, "", c) {
        assert c.data[4..] == ZERO_WORD;
        assert IsZero(c.data[4..16]);
      }
      if AllowedSetFallbackHandler(c) {
        forall i | 4 <= i < 36 ensures c.data[i] == 0 {
          assert c.data[i] == c.data[4..][i - 4];
        }
      }
    }
  }

  // What the settings changes leave out are those calls.
  lemma {:induction false} AbstainsIs(k: nat, env: Env, safe: SafeId, c: Call)
    requires k < |SETTERS| && SafeVersion(env, safe).Ok? && SelfCall(safe, c, Selector(SETTERS[k]))
    ensures INSECURE_CHECKS[k + 2].fn(env, safe, c)
         == Ok(Sets(SETTERS[k], SafeVersion(env, safe).value, safe.address, c))
  {
    var setter := SETTERS[k];
    if |c.data| >= 4 + ArgumentBytes(setter) {
      match setter
      case AddOwner => NoOwnerIs(c.data[16..36]);
      case SwapOwner => NoOwnerIs(c.data[80..100]);
      case DisableModule => DisableModuleIsExcepted(c);
      case SetFallbackHandler => FallbackHandlerIsExcepted(c);
      case _ =>
    }
  }

  lemma {:induction false} CheckIs(k: nat, env: Env, safe: SafeId, c: Call)
    requires k < |SETTERS| && SafeVersion(env, safe).Ok?
    ensures INSECURE_CHECKS[k + 2].fn(env, safe, c)
         == Ok(Sets(SETTERS[k], SafeVersion(env, safe).value, safe.address, c))
  {
    if SelfCall(safe, c, Selector(SETTERS[k])) {
      AbstainsIs(k, env, safe, c);
    }
  }

  // ---- The requests ------------------------------------------------------------------------

  lemma {:induction false} BreaksIs(k: nat, env: Env, safe: SafeId, calls: seq<Call>)
    requires k < |SETTERS| && SafeVersion(env, safe).Ok?
    ensures Breaks(INSECURE_CHECKS[k + 2], env, safe, calls)
       <==> AnySets(SETTERS[k], SafeVersion(env, safe).value, safe.address, calls)
  {
    forall c | c in calls ensures
      Matches(INSECURE_CHECKS[k + 2], env, safe, c) <==> Sets(SETTERS[k], SafeVersion(env, safe).value, safe.address, c)
    {
      CheckIs(k, env, safe, c);
    }
  }

  lemma {:induction false} FirstTwoHold(env: Env, safe: SafeId, calls: seq<Call>)
    requires Covered(env, safe)
    ensures !Breaks(INSECURE_CHECKS[0], env, safe, calls) && !Breaks(INSECURE_CHECKS[1], env, safe, calls)
  {
    assert INSECURE_CHECKS[0] == OFF_NETWORK && INSECURE_CHECKS[1] == UNSUPPORTED_SAFE;
  }

  // Function k is the first that some call sets something with.
  predicate IsFirstSetter(k: int, version: string, safe: Address, calls: seq<Call>) {
    && 0 <= k < |SETTERS| && AnySets(SETTERS[k], version, safe, calls)
    && forall j :: 0 <= j < k ==> !AnySets(SETTERS[j], version, safe, calls)
  }

  lemma {:induction false} FirstSetterDecides(k: int, env: Env, safe: SafeId, calls: seq<Call>)
    requires Covered(env, safe) && 0 <= k
    ensures IsFirstSetter(k, SafeVersion(env, safe).value, safe.address, calls)
       <==> IsFirstBroken(INSECURE_CHECKS, env, safe, calls, k + 2)
  {
    FirstTwoHold(env, safe, calls);
    CheckOf(0);
    forall j: nat | j < |SETTERS| ensures Breaks(INSECURE_CHECKS[j + 2], env, safe, calls)
                                     <==> AnySets(SETTERS[j], SafeVersion(env, safe).value, safe.address, calls) {
      BreaksIs(j, env, safe, calls);
    }
    if IsFirstSetter(k, SafeVersion(env, safe).value, safe.address, calls) {
      forall i | 0 <= i < k + 2 ensures !Breaks(INSECURE_CHECKS[i], env, safe, calls) {
        assert i >= 2 ==> !AnySets(SETTERS[i - 2], SafeVersion(env, safe).value, safe.address, calls);
      }
    }
    if IsFirstBroken(INSECURE_CHECKS, env, safe, calls, k + 2) {
      forall j | 0 <= j < k ensures !AnySets(SETTERS[j], SafeVersion(env, safe).value, safe.address, calls) {
        assert !Breaks(INSECURE_CHECKS[j + 2], env, safe, calls);
      }
    }
  }

  predicate IsInsecure(r: Result<Classification>) {
    r.Ok? && r.value.verdict == Insecure
  }

  // What classify gives, by the first of the insecure checks that is broken.
  lemma {:induction false} ClassOf(insecure: seq<Check>, secure: seq<Check>, env: Env, safe: SafeId, calls: seq<Call>)
    requires forall i :: 0 <= i < |insecure| ==> insecure[i].verdict == Insecure
    requires secure != [] && secure[0].verdict == Secure
    ensures var r := ClassifyCalls(insecure + secure, env, safe, calls);
            match FirstBroken(insecure, env, safe, calls)
            case Err => r.Err?
            case Ok(Some(i)) => r == Ok(insecure[i].Class())
            case Ok(None) => Descriptions(secure, env, safe, calls, []).Ok? ==> r.Ok? && !IsInsecure(r)
  {
    SecureIndexSplit(insecure, secure);
    assert (insecure + secure)[..|insecure|] == insecure && (insecure + secure)[|insecure|..] == secure;
    var first := FirstBroken(insecure, env, safe, calls);
    if first.Ok? && first.value.Some? {
      assert (insecure + secure)[first.value.value] == insecure[first.value.value];
    }
  }

  // The class by all of the checks, in terms of the insecure ones.
  lemma {:induction false} ClassOfAll(multiSends: MultiSends, env: Env, safe: SafeId, calls: seq<Call>)
    ensures var r := ClassifyCalls(AllChecks(multiSends), env, safe, calls);
            match FirstBroken(INSECURE_CHECKS, env, safe, calls)
            case Err => r.Err?
            case Ok(Some(i)) => r == Ok(INSECURE_CHECKS[i].Class())
            case Ok(None) => r.Ok? && !IsInsecure(r)
  {
    InsecureVerdicts();
    var secure := SecureChecks(multiSends);
    assert secure[0].verdict == Secure;
    ClassOf(INSECURE_CHECKS, secure, env, safe, calls);
    SecureAnswers(multiSends, env, safe, calls);
  }

  // The first of the insecure checks that is broken is of the first function that some
  // call sets something with.
  lemma {:induction false} FirstSetterBreaks(env: Env, safe: SafeId, calls: seq<Call>)
    requires Covered(env, safe)
    ensures var version, first := SafeVersion(env, safe).value, FirstBroken(INSECURE_CHECKS, env, safe, calls);
            match first
            case Err => false
            case Ok(None) => forall k :: !IsFirstSetter(k, version, safe.address, calls)
            case Ok(Some(i)) => i >= 2 && forall k :: IsFirstSetter(k, version, safe.address, calls) <==> k == i - 2
  {
    var version, insecure := SafeVersion(env, safe).value, INSECURE_CHECKS;
    InsecureChecksAnswer(env, safe, calls);
    FirstBrokenIs(insecure, env, safe, calls);
    FirstTwoHold(env, safe, calls);
    forall k: nat ensures IsFirstSetter(k, version, safe.address, calls) <==> IsFirstBroken(insecure, env, safe, calls, k + 2) {
      FirstSetterDecides(k, env, safe, calls);
    }
    OneFirstBroken(insecure, env, safe, calls);
  }

  lemma {:induction false} OneFirstBroken(checks: seq<Check>, env: Env, safe: SafeId, calls: seq<Call>)
    ensures forall i, j :: IsFirstBroken(checks, env, safe, calls, i) && IsFirstBroken(checks, env, safe, calls, j) ==> i == j
  {
  }

  // The class of an insecure check of a function.
  predicate IsClassOf(r: Result<Classification>, i: nat) {
    2 <= i < |SETTERS| + 2 && r == Ok(Classification(Insecure, "R-4.1", Description(SETTERS[i - 2])))
  }

  lemma {:induction false} BrokenClass(multiSends: MultiSends, env: Env, safe: SafeId, calls: seq<Call>)
    ensures var r := ClassifyCalls(AllChecks(multiSends), env, safe, calls);
            match FirstBroken(INSECURE_CHECKS, env, safe, calls)
            case Err => r.Err?
            case Ok(None) => r.Ok? && !IsInsecure(r)
            case Ok(Some(i)) => i >= 2 ==> IsClassOf(r, i)
  {
    ClassOfAll(multiSends, env, safe, calls);
    var first := FirstBroken(INSECURE_CHECKS, env, safe, calls);
    if first.Ok? && first.value.Some? && first.value.value >= 2 {
      CheckOf(0);
      CheckOf(first.value.value - 2);
    }
  }

  // The calls of a covered Safe get the class of the first function that one of them sets
  // something with, and aren't found insecure if there is none.
  lemma {:induction false} CallsInsecureExactly(multiSends: MultiSends, env: Env, safe: SafeId, calls: seq<Call>)
    requires Covered(env, safe)
    ensures var version, r := SafeVersion(env, safe).value, ClassifyCalls(AllChecks(multiSends), env, safe, calls);
            && r.Ok? && (IsInsecure(r) <==> exists k :: IsFirstSetter(k, version, safe.address, calls))
            && forall k :: IsFirstSetter(k, version, safe.address, calls) ==>
                 r == Ok(Classification(Insecure, "R-4.1", Description(SETTERS[k])))
  {
    FirstSetterBreaks(env, safe, calls);
    BrokenClass(multiSends, env, safe, calls);
    FirstIsClass(FirstBroken(INSECURE_CHECKS, env, safe, calls), ClassifyCalls(AllChecks(multiSends), env, safe, calls),
                 SafeVersion(env, safe).value, safe.address, calls);
  }

  lemma {:induction false} FirstIsClass(
    first: Result<Option<nat>>, r: Result<Classification>, version: string, safe: Address, calls: seq<Call>)
    requires first.Ok? && if first.value.None? then r.Ok? && !IsInsecure(r) else IsClassOf(r, first.value.value)
    requires forall k :: IsFirstSetter(k, version, safe, calls) <==> first.value.Some? && k == first.value.value - 2
    ensures r.Ok? && (IsInsecure(r) <==> exists k :: IsFirstSetter(k, version, safe, calls))
    ensures forall k :: IsFirstSetter(k, version, safe, calls) ==>
              r == Ok(Classification(Insecure, "R-4.1", Description(SETTERS[k])))
  {
    if first.value.Some? {
      assert IsFirstSetter(first.value.value - 2, version, safe, calls);
    }
  }

  lemma {:induction false} SecureAnswers(multiSends: MultiSends, env: Env, safe: SafeId, calls: seq<Call>)
    ensures Descriptions(SecureChecks(multiSends), env, safe, calls, []).Ok?
  {
    var checks := SecureChecks(multiSends);
    forall c | c in calls ensures FirstMatch(checks, env, safe, c).Ok? {
      FirstMatchSecure(multiSends, env, safe, c);
    }
    DescriptionsIs(checks, env, safe, calls, []);
  }

  // Classify finds a request of a covered Safe insecure exactly when one of its calls is a
  // call by the Safe to one of the nine functions that change its settings, with all of
  // its arguments, that isn't excepted; with the description of the first such function.
  lemma {:induction false} InsecureExactly(
    multiSends: MultiSends, env: Env, request: Request, tx: SafeTransaction, at: Env, safe: SafeId)
    requires IsJudged(request, env, tx, at, safe) && Covered(at, safe)
    ensures var version, calls := SafeVersion(at, safe).value, ComponentCalls(multiSends, tx);
            var r := Classify(AllChecks(multiSends), multiSends, env, request);
            && r.Ok? && (IsInsecure(r) <==> exists setter :: AnySets(setter, version, tx.safe, calls))
            && forall k :: IsFirstSetter(k, version, tx.safe, calls) ==>
                 r == Ok(Classification(Insecure, "R-4.1", Description(SETTERS[k])))
  {
    var version, calls := SafeVersion(at, safe).value, ComponentCalls(multiSends, tx);
    CallsInsecureExactly(multiSends, at, safe, calls);
    if setter :| AnySets(setter, version, tx.safe, calls) {
      var k := IndexOf(setter);
      SomeFirst(k, version, tx.safe, calls);
    }
  }

  function IndexOf(setter: Setter): (k: nat)
    ensures k < |SETTERS| && SETTERS[k] == setter
  {
    match setter
    case AddOwner => 0
    case RemoveOwner => 1
    case SwapOwner => 2
    case ChangeThreshold => 3
    case EnableModule => 4
    case DisableModule => 5
    case SetGuard => 6
    case SetFallbackHandler => 7
    case SetModuleGuard => 8
  }

  lemma {:induction false} SomeFirst(k: nat, version: string, safe: Address, calls: seq<Call>)
    requires k < |SETTERS| && AnySets(SETTERS[k], version, safe, calls)
    ensures exists i :: IsFirstSetter(i, version, safe, calls)
  {
    if j :| 0 <= j < k && AnySets(SETTERS[j], version, safe, calls) {
      SomeFirst(j, version, safe, calls);
    } else {
      assert IsFirstSetter(k, version, safe, calls);
    }
  }

  // What isn't covered: another network, an account that isn't a Safe of a listed version,
  // and one that can't be read.
  predicate IsUncoveredClass(chainId: int, version: Result<string>, r: Result<Classification>) {
    if chainId !in {1, 100, 42161} then
      r == Ok(Classification(Insecure, "R-4.0", "Safe on a network that the Charter doesn't cover"))
    else if version.Err? then r.Err?
    else if version.value == "" then
      r == Ok(Classification(Insecure, "R-4.0", "account that isn't a Safe of a version that the Charter covers"))
    else
      true
  }

  lemma FirstClasses()
    ensures INSECURE_CHECKS[0].Class()
         == Classification(Insecure, "R-4.0", "Safe on a network that the Charter doesn't cover")
    ensures INSECURE_CHECKS[1].Class()
         == Classification(Insecure, "R-4.0", "account that isn't a Safe of a version that the Charter covers")
  {
    assert INSECURE_CHECKS[0] == OFF_NETWORK && INSECURE_CHECKS[1] == UNSUPPORTED_SAFE;
  }

  lemma NetworksAre(safe: SafeId)
    ensures OffNetwork(safe) <==> safe.chainId !in {1, 100, 42161}
  {
  }

  lemma {:induction false} CallsUncovered(multiSends: MultiSends, env: Env, safe: SafeId, calls: seq<Call>)
    requires calls != []
    ensures IsUncoveredClass(safe.chainId, SafeVersion(env, safe), ClassifyCalls(AllChecks(multiSends), env, safe, calls))
  {
    NetworksAre(safe);
    FirstClasses();
    if OffNetwork(safe) {
      OffNetworkDecides(multiSends, env, safe, calls);
    } else if SafeVersion(env, safe).Err? || SafeVersion(env, safe).value == "" {
      UnsupportedClass(multiSends, env, safe, calls);
    }
  }

  lemma {:induction false} UnsupportedClass(multiSends: MultiSends, env: Env, safe: SafeId, calls: seq<Call>)
    requires !OffNetwork(safe) && calls != []
    requires SafeVersion(env, safe).Err? || SafeVersion(env, safe).value == ""
    ensures ClassifyCalls(AllChecks(multiSends), env, safe, calls)
         == if SafeVersion(env, safe).Err? then Err else Ok(INSECURE_CHECKS[1].Class())
  {
    UnsupportedDecides(env, safe, calls);
    ClassOfAll(multiSends, env, safe, calls);
  }

  lemma {:induction false} UnsupportedDecides(env: Env, safe: SafeId, calls: seq<Call>)
    requires !OffNetwork(safe) && calls != []
    requires SafeVersion(env, safe).Err? || SafeVersion(env, safe).value == ""
    ensures FirstBroken(INSECURE_CHECKS, env, safe, calls) == if SafeVersion(env, safe).Err? then Err else Ok(Some(1))
  {
    var insecure := INSECURE_CHECKS;
    assert insecure[0] == OFF_NETWORK && insecure[1..][0] == UNSUPPORTED_SAFE;
    OffNetworkNever(env, safe, calls);
  }

  lemma {:induction false} UncoveredExactly(
    multiSends: MultiSends, env: Env, request: Request, tx: SafeTransaction, at: Env, safe: SafeId)
    requires IsJudged(request, env, tx, at, safe)
    ensures IsUncoveredClass(tx.chainId, SafeVersion(at, safe), Classify(AllChecks(multiSends), multiSends, env, request))
  {
    CallsUncovered(multiSends, at, safe, ComponentCalls(multiSends, tx));
  }

  // ---- Encoded calls ---------------------------------------------------------------------

  // Arguments of the function's types.
  predicate AreArguments(setter: Setter, args: seq<Value>) {
    match setter
    case AddOwner => |args| == 2 && args[0].AddressValue? && args[1].UintValue?
    case RemoveOwner => |args| == 3 && args[0].AddressValue? && args[1].AddressValue? && args[2].UintValue?
    case SwapOwner => |args| == 3 && args[0].AddressValue? && args[1].AddressValue? && args[2].AddressValue?
    case ChangeThreshold => |args| == 1 && args[0].UintValue?
    case DisableModule => |args| == 2 && args[0].AddressValue? && args[1].AddressValue?
    case _ => |args| == 1 && args[0].AddressValue?
  }

  // Adding an owner that can't be one, an exception of the Charter, or a function that the
  // Safe doesn't have.
  predicate LeavesOut(setter: Setter, args: seq<Value>, version: string, c: Call)
    requires AreArguments(setter, args)
  {
    match setter
    case AddOwner => args[0].address in {ZERO_ADDRESS, SENTINEL}
    case SwapOwner => args[2].address in {ZERO_ADDRESS, SENTINEL}
    case DisableModule => c.kind == Root && c.value == 0
    case SetFallbackHandler => c.kind == Root && c.value == 0 && args[0].address == ZERO_ADDRESS
    case SetModuleGuard => version !in {"1.5.0", "1.5.0+L2"}
    case _ => false
  }

  lemma {:induction false} ArgumentWord(data: Bytes, selector: Bytes, args: seq<Value>, i: nat)
    requires |selector| == 4 && data == CallData(selector, args) && i < |args|
    requires forall v :: v in args ==> v.AddressValue? || v.UintValue?
    ensures |data| == 4 + 32 * |args| && data[4 + 32 * i..36 + 32 * i] == EncodeValue(args[i]) && data[..4] == selector
  {
    var encoded := Encode(args);
    HeadReads(args, i, []);
    OneWordParts(args);
    HeadsTakeOneWord(Parts(args), 32 * |args|, 0);
    StaticTails(Parts(args));
    assert encoded + [] == encoded;
    assert data[4..] == encoded && data[4 + 32 * i..36 + 32 * i] == encoded[32 * i..32 * i + 32];
    assert Parts(args)[i] == Part(false, EncodeValue(args[i]));
  }

  lemma {:induction false} StaticTails(parts: seq<Part>)
    requires forall i :: 0 <= i < |parts| ==> !parts[i].dynamic
    ensures Tails(parts) == []
  {
    if parts != [] {
      StaticTails(parts[1..]);
    }
  }

  // An encoded call by the Safe to one of the functions changes a setting, unless it is
  // left out.
  lemma {:induction false} EncodedSets(setter: Setter, args: seq<Value>, version: string, safe: Address, c: Call)
    requires AreArguments(setter, args) && c.data == CallData(Selector(setter), args)
    requires c.to == safe && c.operation == CALL
    ensures Sets(setter, version, safe, c) <==> !LeavesOut(setter, args, version, c)
  {
    ArgumentWord(c.data, Selector(setter), args, 0);
    match setter
    case AddOwner =>
      OwnerWord(c.data[4..36], args[0].address);
      assert c.data[16..36] == c.data[4..36][12..];
    case SwapOwner =>
      ArgumentWord(c.data, Selector(setter), args, 2);
      OwnerWord(c.data[68..100], args[2].address);
      assert c.data[80..100] == c.data[68..100][12..];
    case DisableModule =>
      ArgumentWord(c.data, Selector(setter), args, 1);
      assert forall i :: 4 <= i < 16 ==> c.data[i] == c.data[4..36][i - 4];
      assert forall i :: 36 <= i < 48 ==> c.data[i] == c.data[36..68][i - 36];
    case SetFallbackHandler =>
      assert forall i :: 4 <= i < 36 ==> c.data[i] == c.data[4..36][i - 4];
      HandlerWord(c.data, args[0].address);
    case _ =>
  }

  lemma OwnerWord(word: Bytes, owner: Address)
    requires word == AddressWord(owner)
    ensures word[12..] == owner && (IsNoOwner(owner) <==> owner in {ZERO_ADDRESS, SENTINEL})
  {
    NoOwnerIs(owner);
  }

  lemma {:induction false} HandlerWord(data: Bytes, handler: Address)
    requires |data| == 36 && data[4..36] == AddressWord(handler)
    ensures (forall i :: 4 <= i < 36 ==> data[i] == 0) <==> handler == ZERO_ADDRESS
  {
    var word := data[4..36];
    assert forall i :: 0 <= i < 32 ==> word[i] == data[i + 4];
    if forall i :: 4 <= i < 36 ==> data[i] == 0 {
      assert handler == word[12..];
      assert forall i :: 0 <= i < 20 ==> handler[i] == word[i + 12];
    }
  }

  // A request whose own call is an encoded call by its Safe to one of the functions gets
  // the class of that function, unless it is left out.
  lemma {:induction false} EncodedCallIsInsecure(
    multiSends: MultiSends, env: Env, request: Request, tx: SafeTransaction, at: Env, safe: SafeId, setter: Setter,
    args: seq<Value>)
    requires IsJudged(request, env, tx, at, safe) && Covered(at, safe)
    requires tx.to == tx.safe && tx.to !in multiSends && tx.operation == CALL
    requires AreArguments(setter, args) && tx.data == CallData(Selector(setter), args)
    ensures var r := Classify(AllChecks(multiSends), multiSends, env, request);
            if LeavesOut(setter, args, SafeVersion(at, safe).value, RootCall(tx)) then !IsInsecure(r)
            else r == Ok(Classification(Insecure, "R-4.1", Description(setter)))
  {
    var version, calls := SafeVersion(at, safe).value, ComponentCalls(multiSends, tx);
    EncodedIsFirst(multiSends, tx, setter, args, version);
    InsecureExactly(multiSends, env, request, tx, at, safe);
  }

  lemma {:induction false} EncodedIsFirst(
    multiSends: MultiSends, tx: SafeTransaction, setter: Setter, args: seq<Value>, version: string)
    requires Refundable(tx) && tx.to == tx.safe && tx.to !in multiSends && tx.operation == CALL
    requires AreArguments(setter, args) && tx.data == CallData(Selector(setter), args)
    ensures var calls := ComponentCalls(multiSends, tx);
            if LeavesOut(setter, args, version, RootCall(tx)) then forall other :: !AnySets(other, version, tx.safe, calls)
            else IsFirstSetter(IndexOf(setter), version, tx.safe, calls)
  {
    EncodedSets(setter, args, version, tx.safe, RootCall(tx));
    ArgumentWord(tx.data, Selector(setter), args, 0);
    forall other ensures AnySets(other, version, tx.safe, ComponentCalls(multiSends, tx))
                    <==> other == setter && Sets(setter, version, tx.safe, RootCall(tx)) {
      OwnCallSets(multiSends, tx, other, setter, version);
    }
    SettersAreDistinct(IndexOf(setter));
  }

  lemma SettersAreDistinct(k: nat)
    requires k < |SETTERS|
    ensures forall j :: 0 <= j < k ==> SETTERS[j] != SETTERS[k]
  {
  }

  // A refund sets nothing, so only the transaction's own call does.
  lemma {:induction false} OwnCallSets(
    multiSends: MultiSends, tx: SafeTransaction, other: Setter, setter: Setter, version: string)
    requires Refundable(tx) && tx.to !in multiSends && |tx.data| >= 4 && tx.data[..4] == Selector(setter)
    ensures AnySets(other, version, tx.safe, ComponentCalls(multiSends, tx))
       <==> other == setter && Sets(setter, version, tx.safe, RootCall(tx))
  {
    var calls, root := ComponentCalls(multiSends, tx), RootCall(tx);
    assert ExpandTransactionCalls(multiSends, tx) == [root] && calls[0] == root;
    RefundSetsNothing(tx, other, version);
    SelectorsAreDistinct(other, setter);
    assert forall c :: c in calls <==> c == root || GasRefund(tx) == Some(c);
  }

  lemma SelectorsAreDistinct(a: Setter, b: Setter)
    ensures Selector(a) == Selector(b) ==> a == b
  {
    assert Selector(a)[0] == Selector(b)[0] && Selector(a)[1] == Selector(b)[1] ==> a == b;
  }

  lemma RefundSetsNothing(tx: SafeTransaction, setter: Setter, version: string)
    requires Refundable(tx)
    ensures GasRefund(tx).Some? ==> !Sets(setter, version, tx.safe, GasRefund(tx).value)
  {
    if GasRefund(tx).Some? && GasRefund(tx).value.data != [] {
      assert GasRefund(tx).value.data[0] == TRANSFER[0] && Selector(setter)[0] != TRANSFER[0];
    }
  }
}

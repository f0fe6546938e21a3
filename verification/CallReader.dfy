// The reader of internal/checks/calls.go, which reports the calls of transactions with
// the accounts that they are to, and reads each account once.
module CallReader {
  import opened Wrappers
  import opened EthTypes
  import opened Calls
  import opened Components
  import opened SafeVersions
  import opened Rules

  datatype Contract = Contract(name: string, version: string)

  datatype Account = Account(address: Address, codeHash: Word, codeSize: nat, self: bool, contract: Option<Contract>)

  datatype SafeAccount = SafeAccount(
    address: Address, codeHash: Word, codeSize: nat, proxyVersion: Option<string>, singleton: Address,
    singletonVersion: Option<string>)

  // Data decoded as a well-known function, by the tables of internal/functions.
  datatype Function = Function(signature: string, arguments: seq<string>)

  datatype ReportedCall = ReportedCall(
    kind: CallKind, placeholder: Placeholder, to: Account, value: int, operation: Byte, data: Bytes,
    decoded: Option<Function>)

  datatype Report = Report(chainId: nat, safeBlock: nat, safe: SafeAccount, target: Account, calls: seq<ReportedCall>)

  // What a reader is for: a Safe on a chain at a block.
  datatype Setting = Setting(
    tables: Tables, nodes: Nodes, multiSends: MultiSends, decode: Bytes -> Option<Function>, safe: Address, chainId: nat,
    block: nat)
  {
    predicate Covered() {
      chainId in NETWORKS
    }
  }

  // ---- What is reported, whatever was read before --------------------------------------

  function CodeAt(s: Setting, address: Address): Result<Bytes> {
    s.nodes.code(s.chainId, address, s.block)
  }

  function Optional(text: string): Option<string> {
    if text == "" then None else Some(text)
  }

  function WithoutL2(version: string): Option<string> {
    var n := |version| - 3;
    if n >= 0 && version[n..] == "+L2" then Some(version[..n]) else None
  }

  function ContractAt(s: Setting, address: Address): Option<Contract> {
    if address in s.multiSends then
      var name := if s.multiSends[address].callOnly then "MultiSendCallOnly" else "MultiSend";
      Some(Contract(name, s.multiSends[address].version))
    else if address in s.tables.singletons then
      match WithoutL2(s.tables.singletons[address])
      case Some(version) => Some(Contract("SafeL2", version))
      case None => Some(Contract("Safe", s.tables.singletons[address]))
    else None
  }

  function AccountWith(s: Setting, address: Address, code: Bytes): Account {
    Account(address, s.tables.keccak(code), |code|, address == s.safe,
            if s.Covered() && |code| > 0 then ContractAt(s, address) else None)
  }

  function AccountOf(s: Setting, address: Address): Result<Account> {
    match CodeAt(s, address)
    case Err => Err
    case Ok(code) => Ok(AccountWith(s, address, code))
  }

  function SafeAccountOf(s: Setting): Result<SafeAccount> {
    match CodeAt(s, s.safe)
    case Err => Err
    case Ok(code) =>
      match s.nodes.slot0(s.chainId, s.safe, s.block)
      case Err => Err
      case Ok(slot0) =>
        var singleton: Address := slot0[12..];
        var version := if s.Covered() && singleton in s.tables.singletons then s.tables.singletons[singleton] else "";
        Ok(SafeAccount(s.safe, s.tables.keccak(code), |code|, Optional(ProxyVersion(s.tables, code, s.chainId)),
                       singleton, Optional(version)))
  }

  function ReportOne(s: Setting, tx: SafeTransaction, c: Call, to: Account): ReportedCall {
    ReportedCall(c.kind, Label(tx, c), to, c.value, c.operation, c.data, s.decode(c.data))
  }

  function Reported(s: Setting, tx: SafeTransaction, calls: seq<Call>): Result<seq<ReportedCall>> {
    if calls == [] then Ok([])
    else
      var last := calls[|calls| - 1];
      match Reported(s, tx, calls[..|calls| - 1])
      case Err => Err
      case Ok(before) =>
        match AccountOf(s, last.to)
        case Err => Err
        case Ok(to) => Ok(before + [ReportOne(s, tx, last, to)])
  }

  // A request that the reader can report on: its refund is one that the encoder takes.
  predicate InRange(request: Request) {
    request.HasAmounts() ==> Refundable(request.Transaction())
  }

  function ReportOf(s: Setting, request: Request): Result<Report>
    requires InRange(request)
  {
    if !request.HasAmounts() || request.safe != s.safe || request.chainId.value != s.chainId then Err
    else
      var tx := request.Transaction();
      match SafeAccountOf(s)
      case Err => Err
      case Ok(safe) =>
        match AccountOf(s, tx.to)
        case Err => Err
        case Ok(target) =>
          match Reported(s, tx, ComponentCalls(s.multiSends, tx))
          case Err => Err
          case Ok(calls) => Ok(Report(s.chainId, s.block, safe, target, calls))
  }

  // A singleton of SafeL2 is one whose version ends in "+L2", which its name says instead.
  lemma {:induction false} ContractExactly(s: Setting, address: Address, version: string)
    ensures ContractAt(s, address) == Some(Contract("MultiSendCallOnly", version)) <==>
      address in s.multiSends && s.multiSends[address] == MultiSend(version, true)
    ensures ContractAt(s, address) == Some(Contract("MultiSend", version)) <==>
      address in s.multiSends && s.multiSends[address] == MultiSend(version, false)
    ensures ContractAt(s, address) == Some(Contract("SafeL2", version)) <==>
      address !in s.multiSends && address in s.tables.singletons && s.tables.singletons[address] == version + "+L2"
    ensures ContractAt(s, address) == Some(Contract("Safe", version)) <==>
      && address !in s.multiSends && address in s.tables.singletons && s.tables.singletons[address] == version
      && !exists base :: version == base + "+L2"
    ensures ContractAt(s, address).None? <==> address !in s.multiSends && address !in s.tables.singletons
  {
    NamesDiffer();
    if address in s.tables.singletons {
      L2Is(s.tables.singletons[address]);
    }
  }

  lemma NamesDiffer()
    ensures "MultiSend" != "MultiSendCallOnly" && "Safe" != "SafeL2" && "MultiSend" != "SafeL2" && "MultiSend" != "Safe"
    ensures "MultiSendCallOnly" != "SafeL2" && "MultiSendCallOnly" != "Safe"
  {
    assert |"MultiSend"| == 9 && |"MultiSendCallOnly"| == 17 && |"Safe"| == 4 && |"SafeL2"| == 6;
  }

  lemma {:induction false} L2Is(text: string)
    ensures forall version :: WithoutL2(text) == Some(version) <==> text == version + "+L2"
  {
    var n := |text| - 3;
    if n >= 0 && text[n..] == "+L2" {
      assert text == text[..n] + "+L2";
    }
    forall version | text == version + "+L2" ensures WithoutL2(text) == Some(version) {
      assert text[|version|..] == "+L2" && text[..|version|] == version;
    }
  }

  // What is reported of an account: the hash and size of its code, whether it is the Safe,
  // and the deployment that it is, on networks that have it, if it has code.
  lemma AccountExactly(s: Setting, address: Address)
    requires CodeAt(s, address).Ok?
    ensures var code, account := CodeAt(s, address).value, AccountOf(s, address).value;
            && account.address == address && account.codeHash == s.tables.keccak(code) && account.codeSize == |code|
            && (account.self <==> address == s.safe)
            && (account.contract.Some? <==>
                  && s.chainId in {1, 100, 42161} && code != []
                  && (address in s.multiSends || address in s.tables.singletons))
  {
  }

  // What is reported of the Safe: its code, the listed proxy that it is, and the singleton
  // in the low 20 bytes of its slot 0, with its version on networks that are covered.
  lemma SafeAccountExactly(s: Setting)
    ensures SafeAccountOf(s).Err? <==> CodeAt(s, s.safe).Err? || s.nodes.slot0(s.chainId, s.safe, s.block).Err?
    ensures SafeAccountOf(s).Ok? ==>
      var account, code := SafeAccountOf(s).value, CodeAt(s, s.safe).value;
      && account.address == s.safe && account.codeHash == s.tables.keccak(code) && account.codeSize == |code|
      && IsLow(s.nodes.slot0(s.chainId, s.safe, s.block).value, account.singleton)
      && (account.proxyVersion.Some? <==> IsProxyCode(s.tables, code, s.chainId))
      && (forall version :: account.proxyVersion == Some(version) ==>
            version != "" && s.tables.proxies[s.tables.keccak(code)].version == version)
      && (forall version :: account.singletonVersion == Some(version) <==>
            && s.chainId in {1, 100, 42161} && version != ""
            && account.singleton in s.tables.singletons && s.tables.singletons[account.singleton] == version)
  {
  }

  // A request is reported if it has its amounts, is for the Safe on its chain, and all of
  // its accounts can be read: with the Safe, the transaction's target, and its components.
  lemma {:induction false} ReportExactly(s: Setting, request: Request)
    requires InRange(request)
    ensures ReportOf(s, request).Ok? <==>
      && request.HasAmounts() && request.safe == s.safe && request.chainId == Some(s.chainId)
      && SafeAccountOf(s).Ok? && CodeAt(s, request.to).Ok?
      && Reported(s, request.Transaction(), ComponentCalls(s.multiSends, request.Transaction())).Ok?
    ensures ReportOf(s, request).Ok? ==>
      var report, tx := ReportOf(s, request).value, request.Transaction();
      && report.chainId == s.chainId && report.safeBlock == s.block && SafeAccountOf(s) == Ok(report.safe)
      && AccountOf(s, tx.to) == Ok(report.target)
      && Reported(s, tx, ComponentCalls(s.multiSends, tx)) == Ok(report.calls)
  {
  }

  // Each call is reported, in order, with the account that it is to.
  lemma {:induction false} ReportsEachCall(s: Setting, tx: SafeTransaction, calls: seq<Call>)
    ensures Reported(s, tx, calls).Err? <==> exists i :: 0 <= i < |calls| && CodeAt(s, calls[i].to).Err?
    ensures Reported(s, tx, calls).Ok? ==>
      var reports := Reported(s, tx, calls).value;
      |reports| == |calls| && forall i :: 0 <= i < |calls| ==> IsReportOf(s, tx, calls[i], reports[i])
  {
    if calls != [] {
      var n := |calls| - 1;
      ReportsEachCall(s, tx, calls[..n]);
      assert forall i :: 0 <= i < n ==> calls[..n][i] == calls[i];
    }
  }

  predicate IsReportOf(s: Setting, tx: SafeTransaction, c: Call, r: ReportedCall) {
    && r.kind == c.kind && r.value == c.value && r.operation == c.operation && r.data == c.data
    && AccountOf(s, c.to) == Ok(r.to) && r.placeholder == Label(tx, c) && r.decoded == s.decode(c.data)
  }

  lemma {:induction false} ReportedErrSticks(s: Setting, tx: SafeTransaction, calls: seq<Call>, n: nat)
    requires n <= |calls| && Reported(s, tx, calls[..n]).Err?
    ensures Reported(s, tx, calls).Err?
  {
    if n < |calls| {
      assert calls[..|calls| - 1][..n] == calls[..n];
      ReportedErrSticks(s, tx, calls[..|calls| - 1], n);
    } else {
      assert calls[..n] == calls;
    }
  }

  // ---- The reader -----------------------------------------------------------------------

  class Reader {
    const s: Setting
    var codes: map<Address, Bytes>
    var safeAccount: Option<SafeAccount>
    // The accounts whose code the node served, in order.
    ghost var served: seq<Address>

    constructor (s: Setting)
      ensures Valid() && this.s == s
    {
      this.s := s;
      codes, safeAccount, served := map[], None, [];
    }

    // What is kept is what the node answers, and no account was read twice.
    ghost predicate Valid()
      reads this
    {
      && (forall a :: a in codes ==> CodeAt(s, a) == Ok(codes[a]))
      && (safeAccount.Some? ==> SafeAccountOf(s) == Ok(safeAccount.value))
      && (forall a :: a in codes <==> a in served)
      && NoRepeats(served)
    }

    method Code(address: Address) returns (code: Result<Bytes>)
      requires Valid()
      modifies this
      ensures Valid() && code == CodeAt(s, address)
      ensures served == if address in old(codes) || code.Err? then old(served) else old(served) + [address]
      ensures safeAccount == old(safeAccount)
    {
      if address in codes { return Ok(codes[address]); }
      code := s.nodes.code(s.chainId, address, s.block);
      if code.Ok? {
        codes := codes[address := code.value];
        served := served + [address];
      }
    }

    method SafeOf() returns (safe: Result<SafeAccount>)
      requires Valid()
      modifies this
      ensures Valid() && safe == SafeAccountOf(s)
    {
      if safeAccount.Some? { return Ok(safeAccount.value); }
      var code := Code(s.safe);
      if code.Err? { return Err; }
      var slot0 := s.nodes.slot0(s.chainId, s.safe, s.block);
      if slot0.Err? { return Err; }
      var singleton: Address := slot0.value[12..];
      var version := if s.Covered() && singleton in s.tables.singletons then s.tables.singletons[singleton] else "";
      var read := SafeAccount(
        s.safe, s.tables.keccak(code.value), |code.value|, Optional(ProxyVersion(s.tables, code.value, s.chainId)),
        singleton, Optional(version));
      safeAccount := Some(read);
      return Ok(read);
    }

    method AccountAt(address: Address) returns (account: Result<Account>)
      requires Valid()
      modifies this
      ensures Valid() && account == AccountOf(s, address)
    {
      var code := Code(address);
      if code.Err? { return Err; }
      return Ok(AccountWith(s, address, code.value));
    }

    method CallsOf(tx: SafeTransaction, components: seq<Call>) returns (calls: Result<seq<ReportedCall>>)
      requires Valid()
      modifies this
      ensures Valid() && calls == Reported(s, tx, components)
    {
      var reported: seq<ReportedCall> := [];
      for i := 0 to |components|
        invariant Valid() && Reported(s, tx, components[..i]) == Ok(reported)
      {
        assert components[..i + 1][..i] == components[..i];
        var c := components[i];
        var to := AccountAt(c.to);
        if to.Err? {
          ReportedErrSticks(s, tx, components, i + 1);
          return Err;
        }
        reported := reported + [ReportOne(s, tx, c, to.value)];
      }
      assert components[..|components|] == components;
      return Ok(reported);
    }

    // The report doesn't depend on the transactions that were read before.
    method Calls(request: Request) returns (report: Result<Report>)
      requires Valid() && InRange(request)
      modifies this
      ensures Valid() && report == ReportOf(s, request)
    {
      var found := RunComponents(s.multiSends, request);
      if found.Err? { return Err; }
      var tx, components := request.Transaction(), found.value;
      if tx.safe != s.safe || tx.chainId != s.chainId { return Err; }
      var safe := SafeOf();
      if safe.Err? { return Err; }
      var target := AccountAt(tx.to);
      if target.Err? { return Err; }
      var calls := CallsOf(tx, components);
      if calls.Err? { return Err; }
      return Ok(Report(s.chainId, s.block, safe.value, target.value, calls.value));
    }
  }
}

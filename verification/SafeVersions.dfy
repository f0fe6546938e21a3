// Which accounts are Safes: internal/checks/safe.go and internal/checks/network.go.
module SafeVersions {
  import opened Wrappers
  import opened EthTypes
  import opened Components

  const MAINNET := 1
  const GNOSIS := 100
  const ARBITRUM_ONE := 42161

  const NETWORKS := [MAINNET, ARBITRUM_ONE, GNOSIS]

  datatype Proxy = Proxy(version: string, networks: seq<nat>)

  // The tables of official deployments, and Keccak-256, which the model leaves open.
  datatype Tables = Tables(proxies: map<Word, Proxy>, singletons: map<Address, string>, keccak: Bytes -> Word)

  // The answers of the nodes of each chain, by chain ID, address and block.
  datatype Nodes = Nodes(
    dials: nat -> bool, code: (nat, Address, nat) -> Result<Bytes>, slot0: (nat, Address, nat) -> Result<Word>)

  // Where checks read the state of the Safe's chain.
  datatype Env = Env(tables: Tables, nodes: Nodes, block: nat)

  function ProxyVersion(tables: Tables, code: Bytes, chainId: nat): string {
    var hash := tables.keccak(code);
    if hash in tables.proxies && chainId in tables.proxies[hash].networks then tables.proxies[hash].version else ""
  }

  datatype SafeAt = SafeAt(address: Address, chainId: nat, block: nat)

  function KeyOf(env: Env, safe: SafeId): SafeAt {
    SafeAt(safe.address, safe.chainId % UINT64, env.block)
  }

  // The version of the Safe, or "" if the account isn't a Safe of a listed version.
  function SafeVersion(env: Env, safe: SafeId): Result<string> {
    VersionAt(env.tables, env.nodes, KeyOf(env, safe))
  }

  function VersionAt(tables: Tables, nodes: Nodes, key: SafeAt): Result<string> {
    if !nodes.dials(key.chainId) then Err
    else
      match nodes.code(key.chainId, key.address, key.block)
      case Err => Err
      case Ok(code) =>
        if ProxyVersion(tables, code, key.chainId) == "" then Ok("")
        else
          match nodes.slot0(key.chainId, key.address, key.block)
          case Err => Err
          case Ok(slot0) =>
            var singleton: Address := slot0[12..];
            Ok(if singleton in tables.singletons then tables.singletons[singleton] else "")
  }

  // The cache of safeVersion. It keeps versions that were read, and not errors.
  class VersionCache {
    const tables: Tables
    const nodes: Nodes
    var versions: map<SafeAt, string>

    ghost predicate Valid()
      reads this
    {
      forall key :: key in versions ==> VersionAt(tables, nodes, key) == Ok(versions[key])
    }

    constructor (tables: Tables, nodes: Nodes)
      ensures Valid() && this.tables == tables && this.nodes == nodes && versions == map[]
    {
      this.tables := tables;
      this.nodes := nodes;
      versions := map[];
    }

    // Reading through the cache is reading without it.
    method Version(block: nat, safe: SafeId) returns (version: Result<string>)
      requires Valid()
      modifies this
      ensures Valid()
      ensures version == SafeVersion(Env(tables, nodes, block), safe)
      ensures version.Ok? ==>
        versions == old(versions)[SafeAt(safe.address, safe.chainId % UINT64, block) := version.value]
      ensures version.Err? ==> versions == old(versions)
    {
      var key := SafeAt(safe.address, safe.chainId % UINT64, block);
      if key in versions {
        assert versions[key := versions[key]] == versions;
        return Ok(versions[key]);
      }
      if !nodes.dials(key.chainId) { return Err; }
      var code := nodes.code(key.chainId, safe.address, block);
      if code.Err? { return Err; }
      var found := "";
      if ProxyVersion(tables, code.value, key.chainId) != "" {
        var slot0 := nodes.slot0(key.chainId, safe.address, block);
        if slot0.Err? { return Err; }
        var singleton: Address := slot0.value[12..];
        if singleton in tables.singletons {
          found := tables.singletons[singleton];
        }
      }
      versions := versions[key := found];
      return Ok(found);
    }
  }

  // ---- What a version is read of -----------------------------------------------------

  // The code of an account is that of a proxy of the Charter's list, on a network of it.
  predicate IsProxyCode(tables: Tables, code: Bytes, chainId: nat) {
    exists hash :: hash in tables.proxies && hash == tables.keccak(code)
                && chainId in tables.proxies[hash].networks && tables.proxies[hash].version != ""
  }

  // The account has such code, and the last 20 bytes of its slot 0 are a listed singleton.
  predicate IsSafeOf(env: Env, safe: SafeId, version: string)
    requires 0 <= safe.chainId < UINT64
  {
    && version != "" && env.nodes.code(safe.chainId, safe.address, env.block).Ok?
    && IsProxyCode(env.tables, env.nodes.code(safe.chainId, safe.address, env.block).value, safe.chainId)
    && env.nodes.slot0(safe.chainId, safe.address, env.block).Ok?
    && exists singleton :: singleton in env.tables.singletons && env.tables.singletons[singleton] == version
         && IsLow(env.nodes.slot0(safe.chainId, safe.address, env.block).value, singleton)
  }

  // The low 20 bytes of a word are an address, whatever the others are.
  predicate IsLow(word: Word, a: Address) {
    forall i :: 0 <= i < 20 ==> word[12 + i] == a[i]
  }

  // An account has a version exactly if it is a Safe of it, and can't be read exactly if
  // the node can't be reached, or doesn't serve the code, or slot 0 of a proxy.
  lemma VersionExactly(env: Env, safe: SafeId)
    requires 0 <= safe.chainId < UINT64
    ensures forall version :: version != "" ==>
              (SafeVersion(env, safe) == Ok(version) <==> env.nodes.dials(safe.chainId) && IsSafeOf(env, safe, version))
    ensures SafeVersion(env, safe).Err? <==>
      || !env.nodes.dials(safe.chainId)
      || env.nodes.code(safe.chainId, safe.address, env.block).Err?
      || (&& IsProxyCode(env.tables, env.nodes.code(safe.chainId, safe.address, env.block).value, safe.chainId)
          && env.nodes.slot0(safe.chainId, safe.address, env.block).Err?)
  {
    if env.nodes.slot0(safe.chainId, safe.address, env.block).Ok? {
      LowIs(env.nodes.slot0(safe.chainId, safe.address, env.block).value);
    }
  }

  lemma LowIs(word: Word)
    ensures forall a: Address :: IsLow(word, a) <==> a == word[12..]
  {
    forall a: Address | IsLow(word, a) ensures a == word[12..] {
      assert forall i :: 0 <= i < 20 ==> a[i] == word[12..][i];
    }
  }
}

// The EIP-712 hashes of internal/safenet/hash.go. The hash function is a parameter:
// what the hashes bind is stated as the values being equal, or two different inputs
// that it hashes alike.
module SafeTxHash {
  import opened EthTypes
  import opened SolAbi
  import opened Calls

  type Hash = Bytes -> Word

  const DOMAIN_TYPE := "EIP712Domain" + "(" + "uint256 chainId," + "address verifyingContract" + ")"
  const SAFE_TX_TYPE :=
    "SafeTx" + "(" + "address to," + "uint256 value," + "bytes data," + "uint8 operation," + "uint256 safeTxGas,"
    + "uint256 baseGas," + "uint256 gasPrice," + "address gasToken," + "address refundReceiver," + "uint256 nonce" + ")"
  const PROPOSAL_TYPE :=
    "TransactionProposal" + "(" + "uint64 epoch," + "address oracle," + "bytes oracleData," + "bytes32 safeTxHash" + ")"

  function Ascii(text: string): Bytes {
    seq<Byte>(|text|, i requires 0 <= i < |text| => text[i] as int % 256)
  }

  function Join(words: seq<Word>): Bytes {
    if words == [] then [] else Join(words[..|words| - 1]) + words[|words| - 1]
  }

  method HashWords(keccak: Hash, words: seq<Word>) returns (hash: Word)
    ensures hash == keccak(Join(words))
  {
    var data: Bytes := [];
    for i := 0 to |words|
      invariant data == Join(words[..i])
    {
      assert words[..i + 1][..i] == words[..i];
      data := data + words[i];
    }
    assert words[..|words|] == words;
    hash := keccak(data);
  }

  function TypedData(domain: Word, message: Word): Bytes {
    [0x19, 0x01] + domain + message
  }

  function Domain(keccak: Hash, chain: Word, contract: Address): seq<Word> {
    [keccak(Ascii(DOMAIN_TYPE)), chain, AddressWord(contract)]
  }

  function Message(keccak: Hash, tx: SafeTransaction): seq<Word>
    requires InRange(tx)
  {
    [keccak(Ascii(SAFE_TX_TYPE)), AddressWord(tx.to), FromNat(tx.value, 32), keccak(tx.data), Uint64Word(tx.operation),
     FromNat(tx.safeTxGas, 32), FromNat(tx.baseGas, 32), FromNat(tx.gasPrice, 32), AddressWord(tx.gasToken),
     AddressWord(tx.refundReceiver), FromNat(tx.nonce, 32)]
  }

  predicate IsUint256(x: int) {
    0 <= x < UINT256
  }

  // The amounts of tx are ones that its hash can encode.
  predicate InRange(tx: SafeTransaction) {
    && IsUint256(tx.chainId) && IsUint256(tx.value) && IsUint256(tx.safeTxGas) && IsUint256(tx.baseGas)
    && IsUint256(tx.gasPrice) && IsUint256(tx.nonce)
  }

  function SafeTransactionHash(keccak: Hash, tx: SafeTransaction): Word
    requires InRange(tx)
  {
    keccak(TypedData(keccak(Join(Domain(keccak, FromNat(tx.chainId, 32), tx.safe))), keccak(Join(Message(keccak, tx)))))
  }

  // What an oracle request is for.
  datatype Proposal = Proposal(
    chainId: nat, consensus: Address, epoch: nat, oracle: Address, oracleData: Bytes, safeTxHash: Word)

  function ProposalMessage(keccak: Hash, p: Proposal): seq<Word> {
    [keccak(Ascii(PROPOSAL_TYPE)), Uint64Word(p.epoch), AddressWord(p.oracle), keccak(p.oracleData), p.safeTxHash]
  }

  function RequestId(keccak: Hash, p: Proposal): Word {
    var domain := Domain(keccak, Uint64Word(p.chainId), p.consensus);
    keccak(TypedData(keccak(Join(domain)), keccak(Join(ProposalMessage(keccak, p)))))
  }

  // ---- What the hashes bind -------------------------------------------------------------

  // Two different inputs that hash alike.
  predicate Collision(keccak: Hash, a: Bytes, b: Bytes) {
    a != b && keccak(a) == keccak(b)
  }

  lemma {:induction false} JoinLength(words: seq<Word>)
    ensures |Join(words)| == 32 * |words|
  {
    if words != [] {
      JoinLength(words[..|words| - 1]);
    }
  }

  lemma {:induction false} JoinIsInjective(a: seq<Word>, b: seq<Word>)
    requires |a| == |b| && Join(a) == Join(b)
    ensures a == b
  {
    if a != [] {
      var n := |a| - 1;
      JoinLength(a[..n]);
      JoinLength(b[..n]);
      assert Join(a)[..32 * n] == Join(a[..n]) && Join(b)[..32 * n] == Join(b[..n]);
      assert Join(a)[32 * n..] == a[n] && Join(b)[32 * n..] == b[n];
      JoinIsInjective(a[..n], b[..n]);
      assert a == a[..n] + [a[n]] && b == b[..n] + [b[n]];
    }
  }

  lemma TypedDataParts(domain: Word, message: Word)
    ensures TypedData(domain, message)[2..34] == domain && TypedData(domain, message)[34..] == message
  {
  }

  // Equal typed data hashes have equal words, or there is a collision.
  lemma SameWords(keccak: Hash, d1: seq<Word>, m1: seq<Word>, d2: seq<Word>, m2: seq<Word>) returns (a: Bytes, b: Bytes)
    requires |d1| == |d2| && |m1| == |m2|
    requires keccak(TypedData(keccak(Join(d1)), keccak(Join(m1)))) == keccak(TypedData(keccak(Join(d2)), keccak(Join(m2))))
    ensures (d1 == d2 && m1 == m2) || Collision(keccak, a, b)
  {
    a, b := TypedData(keccak(Join(d1)), keccak(Join(m1))), TypedData(keccak(Join(d2)), keccak(Join(m2)));
    if a == b {
      TypedDataParts(keccak(Join(d1)), keccak(Join(m1)));
      TypedDataParts(keccak(Join(d2)), keccak(Join(m2)));
      if Join(d1) != Join(d2) {
        a, b := Join(d1), Join(d2);
      } else if Join(m1) != Join(m2) {
        a, b := Join(m1), Join(m2);
      } else {
        JoinIsInjective(d1, d2);
        JoinIsInjective(m1, m2);
      }
    }
  }

  lemma {:induction false} SameNumber(x: nat, y: nat)
    requires x < UINT256 && y < UINT256 && FromNat(x, 32) == FromNat(y, 32)
    ensures x == y
  {
    NumberWord(x);
    NumberWord(y);
  }

  lemma SameUint64(x: nat, y: nat)
    requires x < UINT64 && y < UINT64 && Uint64Word(x) == Uint64Word(y)
    ensures x == y
  {
    assert Uint64Word(x)[24..] == FromNat(x, 8) && Uint64Word(y)[24..] == FromNat(y, 8);
    PowersOf256();
    ToNatFromNat(x, 8);
    ToNatFromNat(y, 8);
  }

  lemma SameAddress(a: Address, b: Address)
    requires AddressWord(a) == AddressWord(b)
    ensures a == b
  {
    assert AddressWord(a)[12..] == a && AddressWord(b)[12..] == b;
  }

  lemma {:induction false} SameMessage(keccak: Hash, t: SafeTransaction, u: SafeTransaction)
    requires InRange(t) && InRange(u) && Message(keccak, t) == Message(keccak, u)
    ensures t.(chainId := u.chainId, safe := u.safe, data := u.data) == u && keccak(t.data) == keccak(u.data)
  {
    var m, n := Message(keccak, t), Message(keccak, u);
    assert forall i :: 0 <= i < 11 ==> m[i] == n[i];
    SameAddress(t.to, u.to);
    SameNumber(t.value, u.value);
    assert m[3] == n[3] && m[4] == n[4];
    SameUint64(t.operation, u.operation);
    SameNumber(t.safeTxGas, u.safeTxGas);
    SameNumber(t.baseGas, u.baseGas);
    SameNumber(t.gasPrice, u.gasPrice);
    SameAddress(t.gasToken, u.gasToken);
    SameAddress(t.refundReceiver, u.refundReceiver);
    SameNumber(t.nonce, u.nonce);
  }

  // Two transactions with the same hash are the same in their chain, Safe and each
  // field, or two different inputs of the hash function hash alike.
  lemma HashBindsTransaction(keccak: Hash, t: SafeTransaction, u: SafeTransaction) returns (a: Bytes, b: Bytes)
    requires InRange(t) && InRange(u) && SafeTransactionHash(keccak, t) == SafeTransactionHash(keccak, u)
    ensures t == u || Collision(keccak, a, b)
  {
    var d, e := Domain(keccak, FromNat(t.chainId, 32), t.safe), Domain(keccak, FromNat(u.chainId, 32), u.safe);
    a, b := SameWords(keccak, d, Message(keccak, t), e, Message(keccak, u));
    if d == e && Message(keccak, t) == Message(keccak, u) {
      assert d[1] == e[1] && d[2] == e[2];
      SameNumber(t.chainId, u.chainId);
      SameAddress(t.safe, u.safe);
      SameMessage(keccak, t, u);
      a, b := t.data, u.data;
    }
  }

  // Two proposals with the same request ID are the same, or there is a collision.
  lemma RequestIdBindsProposal(keccak: Hash, p: Proposal, q: Proposal) returns (a: Bytes, b: Bytes)
    requires p.chainId < UINT64 && q.chainId < UINT64 && p.epoch < UINT64 && q.epoch < UINT64
    requires RequestId(keccak, p) == RequestId(keccak, q)
    ensures p == q || Collision(keccak, a, b)
  {
    var d, e := Domain(keccak, Uint64Word(p.chainId), p.consensus), Domain(keccak, Uint64Word(q.chainId), q.consensus);
    var m, n := ProposalMessage(keccak, p), ProposalMessage(keccak, q);
    a, b := SameWords(keccak, d, m, e, n);
    if d == e && m == n {
      assert d[1] == e[1] && d[2] == e[2] && m[1] == n[1] && m[2] == n[2] && m[3] == n[3] && m[4] == n[4];
      SameUint64(p.chainId, q.chainId);
      SameAddress(p.consensus, q.consensus);
      SameUint64(p.epoch, q.epoch);
      SameAddress(p.oracle, q.oracle);
      a, b := p.oracleData, q.oracleData;
    }
  }
}

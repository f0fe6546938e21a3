// The hashes of internal/safenet/hash.go against EIP-712, "Typed structured data hashing
// and signing", whose section "Definition of hashStruct" this module states for structs
// without nested ones.
module Eip712 {
  import opened EthTypes
  import opened SolAbi
  import opened SolAbiTheorems
  import opened Calls
  import opened SafeTxHash

  // A value of one of the types that the structs have.
  datatype Typed =
    | Uint8(n: int)
    | Uint64(n: int)
    | Uint256(n: int)
    | Bytes32(word: Word)
    | AddressOf(address: Address)
    | BytesOf(bytes: Bytes)

  datatype Member = Member(name: string, value: Typed)

  datatype Struct = Struct(name: string, members: seq<Member>)

  function TypeName(value: Typed): string {
    match value
    case Uint8(_) => "uint8"
    case Uint64(_) => "uint64"
    case Uint256(_) => "uint256"
    case Bytes32(_) => "bytes32"
    case AddressOf(_) => "address"
    case BytesOf(_) => "bytes"
  }

  // A number is in the range of its type.
  predicate IsValue(value: Typed) {
    match value
    case Uint8(n) => 0 <= n < 256
    case Uint64(n) => 0 <= n < UINT64
    case Uint256(n) => 0 <= n < UINT256
    case _ => true
  }

  // The 32 bytes that encode a value: a number with its most significant byte first, an
  // address as the number that it is, a word as it is, and bytes by their hash.
  ghost predicate Encodes(keccak: Hash, word: Word, value: Typed) {
    match value
    case Bytes32(w) => word == w
    case AddressOf(a) => ToNat(word) == ToNat(a)
    case BytesOf(b) => word == keccak(b)
    case _ => ToNat(word) == value.n
  }

  function MembersText(members: seq<Member>): string {
    if members == [] then ""
    else
      var first := TypeName(members[0].value) + " " + members[0].name;
      if |members| == 1 then first else first + "," + MembersText(members[1..])
  }

  // encodeType: the name, and the type and name of each member.
  function EncodeType(s: Struct): string {
    s.name + "(" + MembersText(s.members) + ")"
  }

  // hashStruct: the hash of the type's hash followed by the encoding of each member, in
  // the order of the type.
  ghost predicate IsStructHash(keccak: Hash, s: Struct, hash: Word) {
    exists text: Bytes, words: seq<Word> :: IsText(text, EncodeType(s)) && IsStructHashOf(keccak, s, hash, text, words)
  }

  // The bytes of a text, a byte for each character.
  predicate IsText(b: Bytes, text: string) {
    |b| == |text| && forall i :: 0 <= i < |b| ==> b[i] == text[i] as int % 256
  }

  ghost predicate IsStructHashOf(keccak: Hash, s: Struct, hash: Word, text: Bytes, words: seq<Word>) {
    && hash == keccak(Chained([keccak(text)] + words))
    && |words| == |s.members|
    && forall i :: 0 <= i < |words| ==> IsValue(s.members[i].value) && Encodes(keccak, words[i], s.members[i].value)
  }

  // Words one after the other.
  function Chained(words: seq<Word>): Bytes {
    if words == [] then [] else words[0] + Chained(words[1..])
  }

  // The hash that is signed: of 0x19 0x01, the domain's hash, and the struct's.
  ghost predicate IsTypedDataHash(keccak: Hash, domain: Struct, s: Struct, hash: Word) {
    exists d: Word, h: Word ::
      IsStructHash(keccak, domain, d) && IsStructHash(keccak, s, h) && hash == keccak([0x19] + [0x01] + d + h)
  }

  function DomainOf(chainId: int, contract: Address): Struct {
    Struct("EIP712Domain", [Member("chainId", Uint256(chainId)), Member("verifyingContract", AddressOf(contract))])
  }

  // The struct that the owners of a Safe sign.
  function SafeTxOf(tx: SafeTransaction): Struct {
    Struct("SafeTx", [
      Member("to", AddressOf(tx.to)),
      Member("value", Uint256(tx.value)),
      Member("data", BytesOf(tx.data)),
      Member("operation", Uint8(tx.operation)),
      Member("safeTxGas", Uint256(tx.safeTxGas)),
      Member("baseGas", Uint256(tx.baseGas)),
      Member("gasPrice", Uint256(tx.gasPrice)),
      Member("gasToken", AddressOf(tx.gasToken)),
      Member("refundReceiver", AddressOf(tx.refundReceiver)),
      Member("nonce", Uint256(tx.nonce))
    ])
  }

  // The struct that validators attest to.
  function ProposalOf(p: Proposal): Struct {
    Struct("TransactionProposal", [
      Member("epoch", Uint64(p.epoch)),
      Member("oracle", AddressOf(p.oracle)),
      Member("oracleData", BytesOf(p.oracleData)),
      Member("safeTxHash", Bytes32(p.safeTxHash))
    ])
  }

  // ---- The words -----------------------------------------------------------------------

  lemma {:induction false} ChainedConcat(a: seq<Word>, b: seq<Word>)
    ensures Chained(a + b) == Chained(a) + Chained(b)
  {
    if a == [] {
      assert a + b == b;
    } else {
      assert (a + b)[1..] == a[1..] + b;
      ChainedConcat(a[1..], b);
    }
  }

  lemma {:induction false} JoinIsChained(words: seq<Word>)
    ensures Join(words) == Chained(words)
  {
    if words != [] {
      var most, last := words[..|words| - 1], words[|words| - 1];
      JoinIsChained(most);
      ChainedConcat(most, [last]);
      assert words == most + [last] && [last][1..] == [];
      assert Chained([last]) == last + [];
    }
  }

  lemma AddressEncodes(keccak: Hash, a: Address)
    ensures Encodes(keccak, AddressWord(a), AddressOf(a))
  {
    ToNatLeadingZeros(Zeros(12), a);
  }

  lemma {:induction false} Uint256Encodes(keccak: Hash, n: nat)
    requires n < UINT256
    ensures IsValue(Uint256(n)) && Encodes(keccak, FromNat(n, 32), Uint256(n))
  {
    NumberWord(n);
  }

  lemma SmallEncodes(n: nat)
    requires n < UINT64
    ensures ToNat(Uint64Word(n)) == n
  {
    SmallUint(n);
    NumberWord(n);
  }

  // ---- The types -----------------------------------------------------------------------

  // A member's text, with the comma after it.
  function MemberText(member: Member): string {
    TypeName(member.value) + " " + member.name + ","
  }

  lemma {:induction false} TextFrom(members: seq<Member>, i: nat)
    requires i + 1 < |members|
    ensures MembersText(members[i..]) == MemberText(members[i]) + MembersText(members[i + 1..])
  {
    assert members[i..][1..] == members[i + 1..];
  }

  // The text that starts with some pieces, and ends with the members from one on.
  predicate Continues(start: string, members: seq<Member>, i: nat, whole: string)
    requires i <= |members|
  {
    start + MembersText(members[i..]) == whole
  }

  lemma {:induction false} TextGoesOn(start: string, members: seq<Member>, i: nat, piece: string, whole: string)
    requires i + 1 < |members| && Continues(start, members, i, whole) && piece == MemberText(members[i])
    ensures Continues(start + piece, members, i + 1, whole)
  {
    TextFrom(members, i);
    assert start + (piece + MembersText(members[i + 1..])) == (start + piece) + MembersText(members[i + 1..]);
  }

  lemma {:induction false} FourGoOn(
    start: string, m: seq<Member>, i: nat, p: string, q: string, r: string, s: string, whole: string)
    requires i + 4 < |m| && Continues(start, m, i, whole)
    requires p == MemberText(m[i]) && q == MemberText(m[i + 1]) && r == MemberText(m[i + 2]) && s == MemberText(m[i + 3])
    ensures Continues(start + p + q + r + s, m, i + 4, whole)
  {
    TextGoesOn(start, m, i, p, whole);
    TextGoesOn(start + p, m, i + 1, q, whole);
    TextGoesOn(start + p + q, m, i + 2, r, whole);
    TextGoesOn(start + p + q + r, m, i + 3, s, whole);
  }

  lemma {:induction false} TextEnds(start: string, members: seq<Member>, piece: string, whole: string)
    requires members != [] && Continues(start, members, |members| - 1, whole)
    requires piece == TypeName(members[|members| - 1].value) + " " + members[|members| - 1].name
    ensures start + piece == whole
  {
    assert members[|members| - 1..] == [members[|members| - 1]];
  }

  lemma {:induction false} NumberTexts(n: int)
    ensures MemberText(Member("chainId", Uint256(n))) == "uint256 chainId,"
    ensures MemberText(Member("epoch", Uint64(n))) == "uint64 epoch,"
    ensures MemberText(Member("value", Uint256(n))) == "uint256 value,"
    ensures MemberText(Member("operation", Uint8(n))) == "uint8 operation,"
  {
  }

  lemma {:induction false} GasTexts(n: int)
    ensures MemberText(Member("safeTxGas", Uint256(n))) == "uint256 safeTxGas,"
    ensures MemberText(Member("baseGas", Uint256(n))) == "uint256 baseGas,"
    ensures MemberText(Member("gasPrice", Uint256(n))) == "uint256 gasPrice,"
  {
  }

  lemma {:induction false} AddressTexts(a: Address)
    ensures MemberText(Member("to", AddressOf(a))) == "address to,"
    ensures MemberText(Member("oracle", AddressOf(a))) == "address oracle,"
    ensures MemberText(Member("gasToken", AddressOf(a))) == "address gasToken,"
    ensures MemberText(Member("refundReceiver", AddressOf(a))) == "address refundReceiver,"
  {
  }

  lemma {:induction false} BytesTexts(b: Bytes)
    ensures MemberText(Member("data", BytesOf(b))) == "bytes data,"
    ensures MemberText(Member("oracleData", BytesOf(b))) == "bytes oracleData,"
  {
  }

  lemma {:induction false} LastTexts()
    ensures "address" + " " + "verifyingContract" == "address verifyingContract"
    ensures "bytes32" + " " + "safeTxHash" == "bytes32 safeTxHash"
    ensures "uint256" + " " + "nonce" == "uint256 nonce"
  {
  }

  lemma {:induction false} DomainType(chainId: int, contract: Address)
    ensures EncodeType(DomainOf(chainId, contract)) == DOMAIN_TYPE
  {
    var m := DomainOf(chainId, contract).members;
    var t := "EIP712Domain" + "(";
    var whole := t + MembersText(m);
    NumberTexts(chainId);
    LastTexts();
    assert m[0..] == m;
    TextGoesOn(t, m, 0, "uint256 chainId,", whole);
    TextEnds(t + "uint256 chainId,", m, "address verifyingContract", whole);
  }

  lemma {:induction false} ProposalType(p: Proposal)
    ensures EncodeType(ProposalOf(p)) == PROPOSAL_TYPE
  {
    var m := ProposalOf(p).members;
    var t := "TransactionProposal" + "(";
    var whole := t + MembersText(m);
    NumberTexts(p.epoch);
    AddressTexts(p.oracle);
    BytesTexts(p.oracleData);
    LastTexts();
    assert m[0..] == m;
    TextGoesOn(t, m, 0, "uint64 epoch,", whole);
    t := t + "uint64 epoch,";
    TextGoesOn(t, m, 1, "address oracle,", whole);
    t := t + "address oracle,";
    TextGoesOn(t, m, 2, "bytes oracleData,", whole);
    TextEnds(t + "bytes oracleData,", m, "bytes32 safeTxHash", whole);
  }

  function SafeTxText(tx: SafeTransaction): string {
    "SafeTx" + "(" + MembersText(SafeTxOf(tx).members)
  }

  // The first four members.
  lemma {:induction false} SafeTxStart(tx: SafeTransaction, start: string)
    requires Continues(start, SafeTxOf(tx).members, 0, SafeTxText(tx))
    ensures Continues(start + "address to," + "uint256 value," + "bytes data," + "uint8 operation,",
                   SafeTxOf(tx).members, 4, SafeTxText(tx))
  {
    AddressTexts(tx.to);
    NumberTexts(tx.value);
    BytesTexts(tx.data);
    NumberTexts(tx.operation);
    FourGoOn(start, SafeTxOf(tx).members, 0, "address to,", "uint256 value,", "bytes data,", "uint8 operation,",
             SafeTxText(tx));
  }

  // Four more.
  lemma {:induction false} SafeTxMiddle(tx: SafeTransaction, start: string)
    requires Continues(start, SafeTxOf(tx).members, 4, SafeTxText(tx))
    ensures Continues(start + "uint256 safeTxGas," + "uint256 baseGas," + "uint256 gasPrice," + "address gasToken,",
                   SafeTxOf(tx).members, 8, SafeTxText(tx))
  {
    GasTexts(tx.safeTxGas);
    GasTexts(tx.baseGas);
    GasTexts(tx.gasPrice);
    AddressTexts(tx.gasToken);
    FourGoOn(start, SafeTxOf(tx).members, 4, "uint256 safeTxGas,", "uint256 baseGas,", "uint256 gasPrice,",
             "address gasToken,", SafeTxText(tx));
  }

  // And the last two.
  lemma {:induction false} SafeTxEnd(tx: SafeTransaction, start: string)
    requires Continues(start, SafeTxOf(tx).members, 8, SafeTxText(tx))
    ensures start + "address refundReceiver," + "uint256 nonce" == SafeTxText(tx)
  {
    var m := SafeTxOf(tx).members;
    AddressTexts(tx.refundReceiver);
    LastTexts();
    TextGoesOn(start, m, 8, "address refundReceiver,", SafeTxText(tx));
    TextEnds(start + "address refundReceiver,", m, "uint256 nonce", SafeTxText(tx));
  }

  lemma {:induction false} SafeTxType(tx: SafeTransaction)
    ensures EncodeType(SafeTxOf(tx)) == SAFE_TX_TYPE
  {
    var m := SafeTxOf(tx).members;
    assert m[0..] == m;
    var t := "SafeTx" + "(";
    SafeTxStart(tx, t);
    t := t + "address to," + "uint256 value," + "bytes data," + "uint8 operation,";
    SafeTxMiddle(tx, t);
    t := t + "uint256 safeTxGas," + "uint256 baseGas," + "uint256 gasPrice," + "address gasToken,";
    SafeTxEnd(tx, t);
  }

  // ---- The hashes ------------------------------------------------------------------------

  lemma {:induction false} StructHashIs(keccak: Hash, s: Struct, typ: string, words: seq<Word>)
    requires EncodeType(s) == typ && |words| == |s.members|
    requires forall i :: 0 <= i < |words| ==> IsValue(s.members[i].value) && Encodes(keccak, words[i], s.members[i].value)
    ensures IsStructHash(keccak, s, keccak(Join([keccak(Ascii(typ))] + words)))
  {
    JoinIsChained([keccak(Ascii(typ))] + words);
    assert IsText(Ascii(typ), EncodeType(s));
    assert IsStructHashOf(keccak, s, keccak(Join([keccak(Ascii(typ))] + words)), Ascii(typ), words);
  }

  lemma {:induction false} DomainHashIs(keccak: Hash, chainId: nat, chain: Word, contract: Address)
    requires chainId < UINT256 && ToNat(chain) == chainId
    ensures IsStructHash(keccak, DomainOf(chainId, contract), keccak(Join(Domain(keccak, chain, contract))))
  {
    var words := [chain, AddressWord(contract)];
    DomainType(chainId, contract);
    AddressEncodes(keccak, contract);
    assert Domain(keccak, chain, contract) == [keccak(Ascii(DOMAIN_TYPE))] + words;
    StructHashIs(keccak, DomainOf(chainId, contract), DOMAIN_TYPE, words);
  }

  lemma {:induction false} SafeTxHashIs(keccak: Hash, tx: SafeTransaction)
    requires InRange(tx)
    ensures IsStructHash(keccak, SafeTxOf(tx), keccak(Join(Message(keccak, tx))))
  {
    var words := Message(keccak, tx)[1..];
    SafeTxType(tx);
    AddressEncodes(keccak, tx.to);
    AddressEncodes(keccak, tx.gasToken);
    AddressEncodes(keccak, tx.refundReceiver);
    Uint256Encodes(keccak, tx.value);
    Uint256Encodes(keccak, tx.safeTxGas);
    Uint256Encodes(keccak, tx.baseGas);
    Uint256Encodes(keccak, tx.gasPrice);
    Uint256Encodes(keccak, tx.nonce);
    SmallEncodes(tx.operation);
    assert Message(keccak, tx) == [keccak(Ascii(SAFE_TX_TYPE))] + words;
    StructHashIs(keccak, SafeTxOf(tx), SAFE_TX_TYPE, words);
  }

  lemma {:induction false} ProposalHashIs(keccak: Hash, p: Proposal)
    requires p.epoch < UINT64
    ensures IsStructHash(keccak, ProposalOf(p), keccak(Join(ProposalMessage(keccak, p))))
  {
    var words := ProposalMessage(keccak, p)[1..];
    ProposalType(p);
    AddressEncodes(keccak, p.oracle);
    SmallEncodes(p.epoch);
    assert ProposalMessage(keccak, p) == [keccak(Ascii(PROPOSAL_TYPE))] + words;
    StructHashIs(keccak, ProposalOf(p), PROPOSAL_TYPE, words);
  }

  // The hash of a transaction is the one that EIP-712 defines of its struct, in the domain
  // of its Safe on its chain.
  lemma {:induction false} TransactionIsTypedData(keccak: Hash, tx: SafeTransaction)
    requires InRange(tx)
    ensures IsTypedDataHash(keccak, DomainOf(tx.chainId, tx.safe), SafeTxOf(tx), SafeTransactionHash(keccak, tx))
  {
    NumberWord(tx.chainId);
    DomainHashIs(keccak, tx.chainId, FromNat(tx.chainId, 32), tx.safe);
    SafeTxHashIs(keccak, tx);
    assert [0x19] + [0x01] == [0x19, 0x01];
  }

  // And so is a request's ID, of the proposal, in the domain of the Consensus contract.
  lemma {:induction false} RequestIsTypedData(keccak: Hash, p: Proposal)
    requires p.chainId < UINT64 && p.epoch < UINT64
    ensures IsTypedDataHash(keccak, DomainOf(p.chainId, p.consensus), ProposalOf(p), RequestId(keccak, p))
  {
    SmallEncodes(p.chainId);
    DomainHashIs(keccak, p.chainId, Uint64Word(p.chainId), p.consensus);
    ProposalHashIs(keccak, p);
    assert [0x19] + [0x01] == [0x19, 0x01];
  }
}

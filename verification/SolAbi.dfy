// The Solidity ABI encoder and decoder of internal/solabi/solabi.go.
//
// The encoder is given twice: as the functions Encode and EncodeValue, which
// the theorems are about, and as the loops that grow a head and a tail. The
// decoder is a class whose decoders of nested tuples share one sticky error.
module SolAbi {
  import opened Wrappers
  import opened EthTypes

  // A value that Encode takes. Hashes are words, uint64s and big.Ints are
  // numbers, and strings are bytes.
  datatype Value =
    | WordValue(word: Word)
    | AddressValue(address: Address)
    | BoolValue(flag: bool)
    | UintValue(number: nat)
    | BytesValue(bytes: Bytes)
    | AddressesValue(addresses: seq<Address>)
    | TupleValue(values: seq<Value>)

  // Encode panics for a number that isn't a uint256.
  predicate Encodable(value: Value) {
    match value
    case UintValue(x) => x < UINT256
    case TupleValue(values) => AllEncodable(values)
    case _ => true
  }

  predicate AllEncodable(values: seq<Value>) {
    forall v :: v in values ==> Encodable(v)
  }

  predicate IsDynamic(value: Value) {
    match value
    case BytesValue(_) => true
    case AddressesValue(_) => true
    case TupleValue(values) => exists v :: v in values && IsDynamic(v)
    case _ => false
  }

  predicate HasDynamic(values: seq<Value>) {
    exists v :: v in values && IsDynamic(v)
  }

  // A uint64 in a word: a wider number loses its upper bits.
  function Uint64Word(x: nat): (w: Word) {
    Zeros(24) + FromNat(x, 8)
  }

  function AddressWord(a: Address): (w: Word) {
    Zeros(12) + a
  }

  function BoolWord(flag: bool): (w: Word) {
    Zeros(31) + [if flag then 1 else 0]
  }

  // value followed by the zeros that fill its last word.
  function Padded(value: Bytes): (p: Bytes)
    ensures |p| == (|value| + 31) / 32 * 32 && p[..|value|] == value
  {
    value + Zeros((|value| + 31) / 32 * 32 - |value|)
  }

  function AddressWords(addresses: seq<Address>): Bytes {
    if addresses == [] then [] else AddressWord(addresses[0]) + AddressWords(addresses[1..])
  }

  // A member of a tuple, encoded.
  datatype Part = Part(dynamic: bool, bytes: Bytes)

  function EncodeValue(value: Value): Bytes
    decreases value, 0
  {
    match value
    case WordValue(word) => word
    case AddressValue(address) => AddressWord(address)
    case BoolValue(flag) => BoolWord(flag)
    case UintValue(x) => FromNat(x, 32)
    case BytesValue(bytes) => Uint64Word(|bytes|) + Padded(bytes)
    case AddressesValue(addresses) => Uint64Word(|addresses|) + AddressWords(addresses)
    case TupleValue(values) => Encode(values)
  }

  function Parts(values: seq<Value>): (parts: seq<Part>)
    ensures |parts| == |values|
    decreases values, 1
  {
    seq(|values|, i requires 0 <= i < |values| => Part(IsDynamic(values[i]), EncodeValue(values[i])))
  }

  function Encode(values: seq<Value>): Bytes
    decreases values, 2
  {
    Heads(Parts(values), 32 * |values|, 0) + Tails(Parts(values))
  }

  // The heads of parts, whose tails start at base + tailLength.
  function Heads(parts: seq<Part>, base: nat, tailLength: nat): Bytes {
    if parts == [] then []
    else if parts[0].dynamic then
      Uint64Word(base + tailLength) + Heads(parts[1..], base, tailLength + |parts[0].bytes|)
    else
      parts[0].bytes + Heads(parts[1..], base, tailLength)
  }

  function Tails(parts: seq<Part>): Bytes {
    if parts == [] then [] else TailOf(parts[0]) + Tails(parts[1..])
  }

  function TailOf(part: Part): Bytes {
    if part.dynamic then part.bytes else []
  }

  // The calldata of a call to the function with selector.
  function CallData(selector: Bytes, args: seq<Value>): Bytes {
    selector + Encode(args)
  }

  // What the encoder's loop returns from part i on.
  function EncodeFrom(parts: seq<Part>, i: nat, base: nat, head: Bytes, tail: Bytes): Bytes
    requires i <= |parts|
    decreases |parts| - i
  {
    if i == |parts| then head + tail
    else if parts[i].dynamic then
      EncodeFrom(parts, i + 1, base, head + Uint64Word(base + |tail|), tail + parts[i].bytes)
    else
      EncodeFrom(parts, i + 1, base, head + parts[i].bytes, tail)
  }

  // What a part adds to the head after a tail of some length.
  function HeadPart(part: Part, base: nat, tailLength: nat): Bytes {
    if part.dynamic then Uint64Word(base + tailLength) else part.bytes
  }

  lemma {:induction false} LayoutNext(parts: seq<Part>, i: nat, base: nat, tailLength: nat)
    requires i < |parts|
    ensures Heads(parts[i..], base, tailLength)
         == HeadPart(parts[i], base, tailLength) + Heads(parts[i + 1..], base, tailLength + |TailOf(parts[i])|)
    ensures Tails(parts[i..]) == TailOf(parts[i]) + Tails(parts[i + 1..])
  {
    assert parts[i..][0] == parts[i] && parts[i..][1..] == parts[i + 1..];
  }

  lemma Regroup(a: Bytes, b: Bytes, c: Bytes, d: Bytes, e: Bytes, f: Bytes)
    ensures ((a + b) + c) + ((d + e) + f) == (a + (b + c)) + (d + (e + f))
  {
    assert (a + b) + c == a + (b + c) && (d + e) + f == d + (e + f);
  }

  lemma {:induction false} EncodeFromNext(parts: seq<Part>, i: nat, base: nat, head: Bytes, tail: Bytes)
    requires i < |parts|
    ensures EncodeFrom(parts, i, base, head, tail)
         == EncodeFrom(parts, i + 1, base, head + HeadPart(parts[i], base, |tail|), tail + TailOf(parts[i]))
  {
    assert tail + [] == tail;
  }

  lemma {:induction false} EncodeFromLayout(parts: seq<Part>, i: nat, base: nat, head: Bytes, tail: Bytes)
    requires i <= |parts|
    ensures EncodeFrom(parts, i, base, head, tail)
         == (head + Heads(parts[i..], base, |tail|)) + (tail + Tails(parts[i..]))
    decreases |parts| - i
  {
    if i < |parts| {
      var h, t := HeadPart(parts[i], base, |tail|), TailOf(parts[i]);
      EncodeFromNext(parts, i, base, head, tail);
      EncodeFromLayout(parts, i + 1, base, head + h, tail + t);
      LayoutNext(parts, i, base, |tail|);
      Regroup(head, h, Heads(parts[i + 1..], base, |tail| + |t|), tail, t, Tails(parts[i + 1..]));
    }
  }

  lemma {:induction false} EncodeFromStart(parts: seq<Part>, base: nat)
    ensures EncodeFrom(parts, 0, base, [], []) == Heads(parts, base, 0) + Tails(parts)
  {
    EncodeFromLayout(parts, 0, base, [], []);
    assert parts[0..] == parts;
    assert [] + Heads(parts, base, 0) == Heads(parts, base, 0) && [] + Tails(parts) == Tails(parts);
  }

  method EncodeTuple(values: seq<Value>) returns (encoded: Bytes)
    requires AllEncodable(values)
    ensures encoded == Encode(values)
    decreases values, 1
  {
    ghost var parts, base := Parts(values), 32 * |values|;
    var head, tail: Bytes := [], [];
    for i := 0 to |values|
      invariant EncodeFrom(parts, i, base, head, tail) == EncodeFrom(parts, 0, base, [], [])
    {
      var value := values[i];
      var bytes := EncodeOne(value);
      if IsDynamic(value) {
        head := head + Uint64Word(32 * |values| + |tail|);
        tail := tail + bytes;
      } else {
        head := head + bytes;
      }
    }
    EncodeFromStart(parts, base);
    encoded := head + tail;
  }

  method EncodeOne(value: Value) returns (encoded: Bytes)
    requires Encodable(value)
    ensures encoded == EncodeValue(value)
    decreases value, 0
  {
    match value
    case WordValue(word) => encoded := word;
    case AddressValue(address) => encoded := AddressWord(address);
    case BoolValue(flag) => encoded := BoolWord(flag);
    case UintValue(x) => encoded := FromNat(x, 32);
    case BytesValue(bytes) => encoded := Uint64Word(|bytes|) + Padded(bytes);
    case AddressesValue(addresses) =>
      encoded := Uint64Word(|addresses|);
      for i := 0 to |addresses|
        invariant encoded + AddressWords(addresses[i..]) == EncodeValue(value)
      {
        assert addresses[i..][0] == addresses[i] && addresses[i..][1..] == addresses[i + 1..];
        encoded := encoded + AddressWord(addresses[i]);
      }
    case TupleValue(values) => encoded := EncodeTuple(values);
  }

  // ---- Reading ------------------------------------------------------------
  // What each accessor of the decoder reads from data, or None if it fails.

  function ReadWord(data: Bytes, offset: nat): Option<Word> {
    if offset > |data| || |data| - offset < 32 then None else Some(data[offset..offset + 32])
  }

  function ReadUint(data: Bytes, i: nat): Option<nat> {
    match ReadWord(data, 32 * i)
    case None => None
    case Some(w) => Some(ToNat(w))
  }

  function Uint64Of(w: Word): Option<nat> {
    if IsZero(w[..24]) then Some(ToNat(w[24..])) else None
  }

  function ReadUint64At(data: Bytes, offset: nat): Option<nat> {
    match ReadWord(data, offset)
    case None => None
    case Some(w) => Uint64Of(w)
  }

  function ReadUint64(data: Bytes, i: nat): Option<nat> {
    ReadUint64At(data, 32 * i)
  }

  function ReadAddress(data: Bytes, i: nat): Option<Address> {
    match ReadWord(data, 32 * i)
    case None => None
    case Some(w) => if IsZero(w[..12]) then Some(w[12..]) else None
  }

  function ReadBool(data: Bytes, i: nat): Option<bool> {
    match ReadWord(data, 32 * i)
    case None => None
    case Some(w) => if IsZero(w[..31]) && w[31] <= 1 then Some(w[31] == 1) else None
  }

  function ReadBytes(data: Bytes, i: nat): Option<Bytes> {
    match ReadUint64(data, i)
    case None => None
    case Some(offset) =>
      match ReadUint64At(data, offset)
      case None => None
      case Some(length) =>
        if length > |data| - (offset + 32) then None
        else Some(data[offset + 32..offset + 32 + length])
  }

  function ReadTuple(data: Bytes, i: nat): Option<Bytes> {
    match ReadUint64(data, i)
    case None => None
    case Some(offset) => if offset > |data| then None else Some(data[offset..])
  }

  // Whether the error of a decoder, and of the decoders of its nested tuples,
  // is set.
  class StickyError {
    var failed: bool

    constructor ()
      ensures !failed
    {
      failed := false;
    }
  }

  // What a read returns: zero, the zero value of its type, once a read failed.
  function OrZero<T>(read: Option<T>, failed: bool, zero: T): T {
    if failed || read.None? then zero else read.value
  }

  class Decoder {
    const data: Bytes
    const err: StickyError

    constructor (data: Bytes)
      ensures this.data == data && fresh(err) && !err.failed
    {
      this.data := data;
      err := new StickyError();
    }

    constructor Sharing(data: Bytes, err: StickyError)
      ensures this.data == data && this.err == err
    {
      this.data := data;
      this.err := err;
    }

    method Word(offset: nat) returns (w: Option<Word>)
      modifies err
      ensures w == if old(err.failed) then None else ReadWord(data, offset)
      ensures err.failed == w.None?
    {
      if err.failed { return None; }
      if offset > |data| || |data| - offset < 32 {
        err.failed := true;
        return None;
      }
      return Some(data[offset..offset + 32]);
    }

    method Head(i: nat) returns (w: Option<Word>)
      modifies err
      ensures w == if old(err.failed) then None else ReadWord(data, 32 * i)
      ensures err.failed == w.None?
    {
      w := Word(i * 32);
    }

    method Uint(i: nat) returns (x: nat)
      modifies err
      ensures x == OrZero(ReadUint(data, i), old(err.failed), 0)
      ensures err.failed == (old(err.failed) || ReadUint(data, i).None?)
    {
      var w := Head(i);
      x := ToNat(if w.None? then [] else w.value);
    }

    method Uint64In(w: Option<Word>) returns (x: nat)
      requires w.None? ==> err.failed
      modifies err
      ensures x == if w.None? || Uint64Of(w.value).None? then 0 else Uint64Of(w.value).value
      ensures err.failed == (old(err.failed) || (w.Some? && Uint64Of(w.value).None?))
    {
      if w.None? { return 0; }
      if !IsZero(w.value[..24]) {
        err.failed := true;
        return 0;
      }
      return ToNat(w.value[24..]);
    }

    method Uint64(i: nat) returns (x: nat)
      modifies err
      ensures x == OrZero(ReadUint64(data, i), old(err.failed), 0)
      ensures err.failed == (old(err.failed) || ReadUint64(data, i).None?)
    {
      var w := Head(i);
      x := Uint64In(w);
    }

    method Address(i: nat) returns (a: Address)
      modifies err
      ensures a == OrZero(ReadAddress(data, i), old(err.failed), ZERO_ADDRESS)
      ensures err.failed == (old(err.failed) || ReadAddress(data, i).None?)
    {
      var w := Head(i);
      if w.None? { return ZERO_ADDRESS; }
      if !IsZero(w.value[..12]) {
        err.failed := true;
        return ZERO_ADDRESS;
      }
      return w.value[12..];
    }

    method Bool(i: nat) returns (flag: bool)
      modifies err
      ensures flag == OrZero(ReadBool(data, i), old(err.failed), false)
      ensures err.failed == (old(err.failed) || ReadBool(data, i).None?)
    {
      var w := Head(i);
      if w.None? { return false; }
      if !IsZero(w.value[..31]) || w.value[31] > 1 {
        err.failed := true;
        return false;
      }
      return w.value[31] == 1;
    }

    method Bytes(i: nat) returns (b: Bytes)
      modifies err
      ensures b == OrZero(ReadBytes(data, i), old(err.failed), [])
      ensures err.failed == (old(err.failed) || ReadBytes(data, i).None?)
    {
      var offset := Uint64(i);
      var w := Word(offset);
      var length := Uint64In(w);
      if err.failed { return []; }
      var start := offset + 32;
      if length > |data| - start {
        err.failed := true;
        return [];
      }
      return data[start..start + length];
    }

    method Tuple(i: nat) returns (d: Decoder)
      modifies err
      ensures d.err == err
      ensures d.data == OrZero(ReadTuple(data, i), old(err.failed), [])
      ensures err.failed == (old(err.failed) || ReadTuple(data, i).None?)
    {
      var offset := Uint64(i);
      if !err.failed && offset > |data| {
        err.failed := true;
      }
      if err.failed {
        d := new Decoder.Sharing([], err);
      } else {
        d := new Decoder.Sharing(data[offset..], err);
      }
    }
  }
}

// The decoder reads back what the encoder writes, and the encoder against the
// reference encoding of the Solidity Contract ABI Specification.
module SolAbiTheorems {
  import opened Wrappers
  import opened EthTypes
  import opened SolAbi

  // ---- Where the parts of an encoding are ----------------------------------

  // A tuple that the decoder can read: each static member takes one word, as
  // the offsets that Encode writes, and the indices that the decoder takes,
  // count 32 bytes for each member.
  predicate Readable(values: seq<Value>) {
    forall v :: v in values ==> ReadableMember(v)
  }

  predicate ReadableMember(value: Value) {
    match value
    case TupleValue(values) => if HasDynamic(values) then Readable(values) else |EncodeValue(value)| == 32
    case _ => true
  }

  lemma {:induction false} StaticTakesOneWord(value: Value)
    requires !IsDynamic(value) && ReadableMember(value)
    ensures |EncodeValue(value)| == 32
  {
  }

  // The head of part i of parts.
  function HeadOf(parts: seq<Part>, base: nat, i: nat): Bytes
    requires i < |parts|
  {
    if parts[i].dynamic then Uint64Word(base + |Tails(parts[..i])|) else parts[i].bytes
  }

  predicate OneWordHeads(parts: seq<Part>) {
    forall i :: 0 <= i < |parts| && !parts[i].dynamic ==> |parts[i].bytes| == 32
  }

  lemma {:induction false} TailsSum(a: seq<Part>, b: seq<Part>)
    ensures Tails(a + b) == Tails(a) + Tails(b)
  {
    if a == [] {
      assert a + b == b;
    } else {
      assert (a + b)[1..] == a[1..] + b;
      TailsSum(a[1..], b);
    }
  }

  lemma {:induction false} HeadsTakeOneWord(parts: seq<Part>, base: nat, tailLength: nat)
    requires OneWordHeads(parts)
    ensures |Heads(parts, base, tailLength)| == 32 * |parts|
  {
    if parts != [] {
      HeadsTakeOneWord(parts[1..], base, tailLength + |TailOf(parts[0])|);
    }
  }

  // The head of a part is its head among the parts after the first one.
  lemma NextHead(parts: seq<Part>, base: nat, i: nat)
    requires 0 < i < |parts|
    ensures HeadOf(parts, base, i) == HeadOf(parts[1..], base + |TailOf(parts[0])|, i - 1)
  {
    assert parts[..i][1..] == parts[1..][..i - 1];
  }

  // The word at 32 * i of the heads is the head of part i.
  predicate HeadsShow(heads: Bytes, parts: seq<Part>, base: nat, i: nat)
    requires i < |parts|
  {
    |heads| == 32 * |parts| && heads[32 * i..32 * i + 32] == HeadOf(parts, base, i)
  }

  lemma HeadsShowNext(heads: Bytes, after: Bytes, parts: seq<Part>, base: nat, i: nat)
    requires 0 < i < |parts| && |HeadOf(parts, base, 0)| == 32
    requires heads == HeadOf(parts, base, 0) + after
    requires HeadsShow(after, parts[1..], base + |TailOf(parts[0])|, i - 1)
    ensures HeadsShow(heads, parts, base, i)
  {
    NextHead(parts, base, i);
  }

  lemma {:induction false} FirstHeadShows(parts: seq<Part>, base: nat, tailLength: nat)
    requires OneWordHeads(parts) && parts != []
    ensures HeadsShow(Heads(parts, base, tailLength), parts, base + tailLength, 0)
  {
    HeadsTakeOneWord(parts, base, tailLength);
  }

  lemma OneWordRest(parts: seq<Part>)
    requires OneWordHeads(parts) && parts != []
    ensures OneWordHeads(parts[1..])
  {
  }

  lemma {:induction false} HeadsAt(parts: seq<Part>, base: nat, tailLength: nat, i: nat)
    requires OneWordHeads(parts) && i < |parts|
    ensures HeadsShow(Heads(parts, base, tailLength), parts, base + tailLength, i)
  {
    if i == 0 {
      FirstHeadShows(parts, base, tailLength);
    } else {
      var rest, grown := parts[1..], tailLength + |TailOf(parts[0])|;
      OneWordRest(parts);
      HeadsAt(rest, base, grown, i - 1);
      assert base + grown == base + tailLength + |TailOf(parts[0])|;
      HeadsShowNext(Heads(parts, base, tailLength), Heads(rest, base, grown), parts, base + tailLength, i);
    }
  }

  lemma {:induction false} TailsAt(parts: seq<Part>, i: nat)
    requires i < |parts|
    ensures Tails(parts) == Tails(parts[..i]) + (TailOf(parts[i]) + Tails(parts[i + 1..]))
  {
    assert parts == parts[..i] + parts[i..];
    TailsSum(parts[..i], parts[i..]);
    assert parts[i..][1..] == parts[i + 1..];
  }

  lemma SliceOfPrefix(a: Bytes, b: Bytes, i: nat, j: nat)
    requires i <= j <= |a|
    ensures (a + b)[i..j] == a[i..j]
  {
  }

  lemma Uint64WordReads(x: nat)
    requires x < UINT64
    ensures Uint64Of(Uint64Word(x)) == Some(x)
  {
    var w := Uint64Word(x);
    assert w[..24] == Zeros(24) && w[24..] == FromNat(x, 8);
    PowersOf256();
    ToNatFromNat(x, 8);
  }

  lemma {:induction false} OneWordParts(values: seq<Value>)
    requires Readable(values)
    ensures OneWordHeads(Parts(values))
  {
    forall i | 0 <= i < |values| && !IsDynamic(values[i]) ensures |EncodeValue(values[i])| == 32 {
      StaticTakesOneWord(values[i]);
    }
  }

  lemma ReadWordOfPrefix(a: Bytes, b: Bytes, offset: nat)
    requires offset + 32 <= |a|
    ensures ReadWord(a + b, offset) == Some(a[offset..offset + 32])
  {
    SliceOfPrefix(a, b, offset, offset + 32);
  }

  lemma {:induction false} PartHeadReads(parts: seq<Part>, base: nat, i: nat, suffix: Bytes)
    requires OneWordHeads(parts) && i < |parts|
    ensures ReadWord((Heads(parts, base, 0) + Tails(parts)) + suffix, 32 * i) == Some(HeadOf(parts, base, i))
  {
    var heads, tails := Heads(parts, base, 0), Tails(parts);
    HeadsAt(parts, base, 0, i);
    assert (heads + tails) + suffix == heads + (tails + suffix);
    ReadWordOfPrefix(heads, tails + suffix, 32 * i);
  }

  // The head word of value i of an encoding that bytes follow.
  lemma {:induction false} HeadReads(values: seq<Value>, i: nat, suffix: Bytes)
    requires Readable(values) && i < |values|
    ensures ReadWord(Encode(values) + suffix, 32 * i) == Some(HeadOf(Parts(values), 32 * |values|, i))
  {
    OneWordParts(values);
    PartHeadReads(Parts(values), 32 * |values|, i, suffix);
  }

  // A dynamic part is at the offset that its head holds.
  lemma {:induction false} PartInTail(parts: seq<Part>, base: nat, i: nat)
    requires OneWordHeads(parts) && base == 32 * |parts| && i < |parts| && parts[i].dynamic
    ensures var all, offset := Heads(parts, base, 0) + Tails(parts), base + |Tails(parts[..i])|;
            offset + |parts[i].bytes| <= |all| && all[offset..offset + |parts[i].bytes|] == parts[i].bytes
  {
    HeadsTakeOneWord(parts, base, 0);
    TailsAt(parts, i);
  }

  // Dynamic value i of an encoding is at the offset that its head word holds.
  lemma DynamicAt(values: seq<Value>, i: nat, suffix: Bytes) returns (offset: nat)
    requires Readable(values) && i < |values| && IsDynamic(values[i])
    requires |Encode(values)| < UINT64
    ensures ReadUint64(Encode(values) + suffix, i) == Some(offset)
    ensures offset + |EncodeValue(values[i])| <= |Encode(values)|
    ensures (Encode(values) + suffix)[offset..offset + |EncodeValue(values[i])|] == EncodeValue(values[i])
  {
    var parts, base := Parts(values), 32 * |values|;
    OneWordParts(values);
    offset := PartAt(parts, base, i, suffix);
  }

  lemma PartAt(parts: seq<Part>, base: nat, i: nat, suffix: Bytes) returns (offset: nat)
    requires OneWordHeads(parts) && base == 32 * |parts| && i < |parts| && parts[i].dynamic
    requires |Heads(parts, base, 0) + Tails(parts)| < UINT64
    ensures var all := Heads(parts, base, 0) + Tails(parts);
            && ReadUint64(all + suffix, i) == Some(offset)
            && offset + |parts[i].bytes| <= |all|
            && (all + suffix)[offset..offset + |parts[i].bytes|] == parts[i].bytes
  {
    offset := base + |Tails(parts[..i])|;
    PartHeadReads(parts, base, i, suffix);
    PartInTail(parts, base, i);
    Uint64WordReads(offset);
    SliceOfPrefix(Heads(parts, base, 0) + Tails(parts), suffix, offset, offset + |parts[i].bytes|);
  }

  // ---- The round trip -------------------------------------------------------

  // Reading value i of data with the accessor for its type returns value. There
  // is no accessor for an array of addresses, or for a static tuple, whose word
  // is read instead.
  predicate DecodesAt(data: Bytes, i: nat, value: Value)
    decreases value, 0
  {
    match value
    case WordValue(word) => ReadWord(data, 32 * i) == Some(word)
    case AddressValue(address) => ReadAddress(data, i) == Some(address)
    case BoolValue(flag) => ReadBool(data, i) == Some(flag)
    case UintValue(x) => ReadUint(data, i) == Some(x) && (x < UINT64 ==> ReadUint64(data, i) == Some(x))
    case BytesValue(bytes) => ReadBytes(data, i) == Some(bytes)
    case AddressesValue(addresses) => true
    case TupleValue(values) =>
      if HasDynamic(values) then
        ReadTuple(data, i).Some? && Decodes(ReadTuple(data, i).value, values)
      else
        ReadWord(data, 32 * i) == Some(EncodeValue(value))
  }

  predicate Decodes(data: Bytes, values: seq<Value>)
    decreases values, 1
  {
    forall i :: 0 <= i < |values| ==> DecodesAt(data, i, values[i])
  }

  lemma {:induction false} SmallUint(x: nat)
    requires x < UINT64
    ensures FromNat(x, 32) == Uint64Word(x)
  {
    PowersOf256();
    ToNatFromNat(x, 8);
    ToNatLeadingZeros(Zeros(24), FromNat(x, 8));
    FromNatToNat(Uint64Word(x));
  }

  lemma {:induction false} StaticReadsBack(data: Bytes, i: nat, value: Value)
    requires !IsDynamic(value) && ReadableMember(value) && Encodable(value)
    requires ReadWord(data, 32 * i) == Some(EncodeValue(value))
    ensures DecodesAt(data, i, value)
  {
    match value
    case AddressValue(a) =>
      assert EncodeValue(value)[..12] == Zeros(12) && EncodeValue(value)[12..] == a;
    case BoolValue(_) =>
      assert EncodeValue(value)[..31] == Zeros(31);
    case UintValue(x) =>
      NumberWord(x);
      if x < UINT64 {
        SmallUint(x);
        Uint64WordReads(x);
      }
    case _ =>
  }

  lemma BytesReadBack(data: Bytes, i: nat, offset: nat, bytes: Bytes)
    requires |bytes| < UINT64 && ReadUint64(data, i) == Some(offset)
    requires offset + 32 + |Padded(bytes)| <= |data|
    requires data[offset..offset + 32 + |Padded(bytes)|] == Uint64Word(|bytes|) + Padded(bytes)
    ensures ReadBytes(data, i) == Some(bytes)
  {
    var w, n := Uint64Word(|bytes|), 32 + |Padded(bytes)|;
    var part := data[offset..offset + n];
    assert data[offset..offset + 32] == part[..32] == w;
    Uint64WordReads(|bytes|);
    assert data[offset + 32..offset + 32 + |bytes|] == part[32..][..|bytes|] == bytes;
  }

  // Reading the i-th value of an encoding with the matching accessor returns it,
  // for every tuple with static members of one word, nested to any depth, and
  // whatever bytes follow the encoding.
  lemma {:induction false} RoundTrip(values: seq<Value>, suffix: Bytes)
    requires Readable(values) && AllEncodable(values)
    requires |Encode(values)| < UINT64
    ensures Decodes(Encode(values) + suffix, values)
    decreases values
  {
    var data := Encode(values) + suffix;
    forall i | 0 <= i < |values| ensures DecodesAt(data, i, values[i]) {
      var value := values[i];
      assert value in values;
      if IsDynamic(value) {
        var offset := DynamicAt(values, i, suffix);
        var n := |EncodeValue(value)|;
        match value
        case BytesValue(bytes) => BytesReadBack(data, i, offset, bytes);
        case AddressesValue(_) =>
        case TupleValue(inner) =>
          assert data[offset..] == data[offset..offset + n] + data[offset + n..];
          RoundTrip(inner, data[offset + n..]);
      } else {
        HeadReads(values, i, suffix);
        StaticReadsBack(data, i, value);
      }
    }
  }

  // A terabyte: more than any value that the short round trip is for.
  const SHORT := 0x100_0000_0000

  lemma {:induction false} TailsBound(parts: seq<Part>)
    requires forall i :: 0 <= i < |parts| ==> |parts[i].bytes| <= SHORT
    ensures |Tails(parts)| <= |parts| * SHORT
  {
    if parts != [] {
      var rest := parts[1..];
      forall i | 0 <= i < |rest| ensures |rest[i].bytes| <= SHORT {
        assert rest[i] == parts[i + 1];
      }
      TailsBound(rest);
    }
  }

  lemma {:induction false} PartsBound(values: seq<Value>)
    requires forall v :: v in values ==> |EncodeValue(v)| <= SHORT
    ensures |Tails(Parts(values))| <= |values| * SHORT
  {
    var parts := Parts(values);
    forall i | 0 <= i < |parts| ensures |parts[i].bytes| <= SHORT {
      MemberPart(values, i);
      assert values[i] in values;
    }
    TailsBound(parts);
  }

  lemma {:induction false} SmallEncode(values: seq<Value>)
    requires Readable(values) && |values| <= 16
    requires forall v :: v in values ==> |EncodeValue(v)| <= SHORT
    ensures |Encode(values)| < UINT64
  {
    PartsBound(values);
    OneWordParts(values);
    HeadsTakeOneWord(Parts(values), 32 * |values|, 0);
  }

  lemma NothingAfter(b: Bytes)
    ensures b + [] == b
  {
  }

  // The round trip of a short tuple, whose members are all short.
  lemma {:induction false} SmallRoundTrip(values: seq<Value>)
    requires Readable(values) && AllEncodable(values) && |values| <= 16
    requires forall v :: v in values ==> |EncodeValue(v)| <= SHORT
    ensures Decodes(Encode(values), values)
  {
    SmallEncode(values);
    NothingAfter(Encode(values));
    RoundTrip(values, []);
  }

  // ---- The reference encoding ----------------------------------------------

  // The encoding that section "Formal Specification of the Encoding" of the
  // Solidity Contract ABI Specification defines: the heads of the members, then
  // the tails of the dynamic ones, where the head of a dynamic member is the
  // length of all of the heads and of the tails before its own.
  function AbiTuple(values: seq<Value>): Bytes
    decreases values, 2
  {
    var parts := AbiParts(values);
    Concat(seq(|parts|, i requires 0 <= i < |parts| => AbiHead(parts, i))) + Tails(parts)
  }

  function AbiParts(values: seq<Value>): (parts: seq<Part>)
    ensures |parts| == |values|
    decreases values, 1
  {
    seq(|values|, i requires 0 <= i < |values| => Part(IsDynamic(values[i]), AbiValue(values[i])))
  }

  // The encoding of a value that isn't a tuple: numbers, and addresses and booleans as the
  // numbers that they are, as 32 bytes; bytes after their length, with zeros up to a
  // multiple of 32 bytes; and arrays after theirs.
  function AbiValue(value: Value): Bytes
    decreases value, 0
  {
    match value
    case WordValue(word) => word
    case AddressValue(address) => FromNat(ToNat(address), 32)
    case BoolValue(flag) => FromNat(if flag then 1 else 0, 32)
    case UintValue(x) => FromNat(x, 32)
    case BytesValue(bytes) => FromNat(|bytes|, 32) + (bytes + Zeros((32 - |bytes| % 32) % 32))
    case AddressesValue(addresses) =>
      FromNat(|addresses|, 32) + Concat(seq(|addresses|, i requires 0 <= i < |addresses| => FromNat(ToNat(addresses[i]), 32)))
    case TupleValue(values) => AbiTuple(values)
  }

  function AbiHead(parts: seq<Part>, i: nat): Bytes
    requires i < |parts|
  {
    if parts[i].dynamic then FromNat(HeadSize(parts) + |Tails(parts[..i])|, 32) else parts[i].bytes
  }

  function HeadSize(parts: seq<Part>): nat {
    if parts == [] then 0 else (if parts[0].dynamic then 32 else |parts[0].bytes|) + HeadSize(parts[1..])
  }

  function Concat(s: seq<Bytes>): Bytes {
    if s == [] then [] else s[0] + Concat(s[1..])
  }

  // Whether counting 32 bytes for each member gives the size of the heads, in
  // each tuple that has a dynamic member, at every depth.
  predicate CountsHeads(values: seq<Value>)
    decreases values, 1
  {
    && (HasDynamic(values) ==> HeadSize(AbiParts(values)) == 32 * |values|)
    && forall v :: v in values ==> CountsMember(v)
  }

  predicate CountsMember(value: Value)
    decreases value, 0
  {
    match value
    case TupleValue(values) => CountsHeads(values)
    case _ => true
  }

  // No offset or length of the encoding, at any depth, is 2^64 or more, as none
  // is in memory that 64-bit integers index.
  predicate Fits(values: seq<Value>)
    decreases values, 1
  {
    && 32 * |values| + |Tails(Parts(values))| < UINT64
    && |Encode(values)| < UINT64
    && forall v :: v in values ==> FitsMember(v)
  }

  predicate FitsMember(value: Value)
    decreases value, 0
  {
    match value
    case TupleValue(values) => Fits(values)
    case BytesValue(bytes) => |bytes| < UINT64
    case AddressesValue(addresses) => |addresses| < UINT64
    case _ => true
  }

  // Parts with the same sizes, as the two encodings of a tuple have.
  predicate SameShape(p: seq<Part>, q: seq<Part>) {
    |p| == |q| && forall i :: 0 <= i < |p| ==> p[i].dynamic == q[i].dynamic && |p[i].bytes| == |q[i].bytes|
  }

  lemma {:induction false} SmallOffset(x: nat, y: nat)
    requires x < UINT64 && y < UINT64
    ensures Uint64Word(x) == FromNat(y, 32) <==> x == y
  {
    SmallUint(x);
    PowersOf256();
    NumberWord(x);
    NumberWord(y);
  }

  lemma SameOffset(base: nat, size: nat, before: nat)
    requires base + before < UINT64 && size + before < UINT64
    ensures Uint64Word(base + before) == FromNat(size + before, 32) <==> base == size
  {
    SmallOffset(base + before, size + before);
  }

  lemma ConcatEqual(a: Bytes, b: Bytes, c: Bytes, d: Bytes)
    requires |a| == |c|
    ensures a + b == c + d <==> a == c && b == d
  {
    if a + b == c + d {
      assert a == (a + b)[..|a|] && b == (a + b)[|a|..];
    }
  }

  // The heads of the parts from i on, in the reference encoding.
  function HeadsFrom(parts: seq<Part>, i: nat): Bytes
    requires i <= |parts|
    decreases |parts| - i
  {
    if i == |parts| then [] else AbiHead(parts, i) + HeadsFrom(parts, i + 1)
  }

  lemma {:induction false} HeadsFromIsConcat(parts: seq<Part>, i: nat, heads: seq<Bytes>)
    requires i <= |parts| == |heads|
    requires forall k :: 0 <= k < |parts| ==> heads[k] == AbiHead(parts, k)
    ensures Concat(heads[i..]) == HeadsFrom(parts, i)
    decreases |parts| - i
  {
    if i < |parts| {
      HeadsFromIsConcat(parts, i + 1, heads);
      assert heads[i..][0] == heads[i] && heads[i..][1..] == heads[i + 1..];
    }
  }

  lemma {:induction false} ShapeLengths(p: seq<Part>, q: seq<Part>)
    requires SameShape(p, q)
    ensures |Tails(p)| == |Tails(q)| && HeadSize(p) == HeadSize(q)
  {
    if p != [] {
      ShapeLengths(p[1..], q[1..]);
    }
  }

  lemma {:induction false} HeadsLength(p: seq<Part>, base: nat, tailLength: nat)
    ensures |Heads(p, base, tailLength)| == HeadSize(p)
  {
    if p != [] {
      HeadsLength(p[1..], base, tailLength + |TailOf(p[0])|);
    }
  }

  lemma {:induction false} HeadsFromLength(q: seq<Part>, i: nat)
    requires i <= |q|
    ensures |HeadsFrom(q, i)| == HeadSize(q[i..])
    decreases |q| - i
  {
    if i < |q| {
      HeadsFromLength(q, i + 1);
      assert q[i..][1..] == q[i + 1..];
    }
  }

  lemma {:induction false} TailsGrow(p: seq<Part>, i: nat)
    requires i < |p|
    ensures Tails(p[..i + 1]) == Tails(p[..i]) + TailOf(p[i])
    ensures |Tails(p[..i])| <= |Tails(p)|
  {
    assert p[..i + 1] == p[..i] + [p[i]] && p == p[..i] + p[i..];
    TailsSum(p[..i], [p[i]]);
    TailsSum(p[..i], p[i..]);
  }

  // Whether a head matches the reference's: its offset has the same base, or
  // its static member is the same.
  predicate HeadMatches(p: seq<Part>, q: seq<Part>, base: nat, i: nat)
    requires i < |p| && |p| == |q|
  {
    if p[i].dynamic then base == HeadSize(q) else p[i].bytes == q[i].bytes
  }

  lemma {:induction false} OneHeadMatches(p: seq<Part>, q: seq<Part>, base: nat, i: nat)
    requires SameShape(p, q) && i < |p|
    requires base + |Tails(p)| < UINT64 && HeadSize(q) + |Tails(q)| < UINT64
    ensures |HeadOf(p, base, i)| == |AbiHead(q, i)|
    ensures HeadOf(p, base, i) == AbiHead(q, i) <==> HeadMatches(p, q, base, i)
  {
    if p[i].dynamic {
      TailsBefore(p, q, i);
      OffsetsMatch(p, q, base, i, |Tails(p[..i])|, HeadSize(q));
    }
  }

  lemma {:induction false} OffsetsMatch(p: seq<Part>, q: seq<Part>, base: nat, i: nat, before: nat, size: nat)
    requires i < |p| && i < |q| && p[i].dynamic && q[i].dynamic && size == HeadSize(q)
    requires |Tails(p[..i])| == before && |Tails(q[..i])| == before
    requires base + before < UINT64 && size + before < UINT64
    ensures |HeadOf(p, base, i)| == |AbiHead(q, i)|
    ensures HeadOf(p, base, i) == AbiHead(q, i) <==> base == size
  {
    SameOffset(base, size, before);
  }

  lemma {:induction false} TailsBefore(p: seq<Part>, q: seq<Part>, i: nat)
    requires SameShape(p, q) && i < |p|
    ensures |Tails(p[..i])| == |Tails(q[..i])| <= |Tails(p)| == |Tails(q)|
  {
    TailsGrow(p, i);
    ShapeLengths(p, q);
    ShapeLengths(p[..i], q[..i]);
  }

  lemma {:induction false} HeadsStep(p: seq<Part>, base: nat, i: nat)
    requires i < |p|
    ensures Heads(p[i..], base, |Tails(p[..i])|) == HeadOf(p, base, i) + Heads(p[i + 1..], base, |Tails(p[..i + 1])|)
  {
    TailsGrow(p, i);
    assert p[i..][0] == p[i] && p[i..][1..] == p[i + 1..];
  }

  // The heads from i on are the reference's exactly when each one is.
  lemma {:induction false} HeadsMatch(p: seq<Part>, q: seq<Part>, base: nat, i: nat)
    requires SameShape(p, q) && i <= |p|
    requires base + |Tails(p)| < UINT64 && HeadSize(q) + |Tails(q)| < UINT64
    ensures Heads(p[i..], base, |Tails(p[..i])|) == HeadsFrom(q, i)
       <==> forall k :: i <= k < |p| ==> HeadMatches(p, q, base, k)
    decreases |p| - i
  {
    if i < |p| {
      HeadsMatch(p, q, base, i + 1);
      HeadsStep(p, base, i);
      OneHeadMatches(p, q, base, i);
      ConcatEqual(HeadOf(p, base, i), Heads(p[i + 1..], base, |Tails(p[..i + 1])|), AbiHead(q, i), HeadsFrom(q, i + 1));
    }
  }

  lemma {:induction false} TailsMatch(p: seq<Part>, q: seq<Part>)
    requires SameShape(p, q)
    ensures Tails(p) == Tails(q) <==> forall k :: 0 <= k < |p| && p[k].dynamic ==> p[k].bytes == q[k].bytes
  {
    if p != [] {
      TailsMatch(p[1..], q[1..]);
      ConcatEqual(TailOf(p[0]), Tails(p[1..]), TailOf(q[0]), Tails(q[1..]));
      assert forall k :: 1 <= k < |p| ==> p[k] == p[1..][k - 1] && q[k] == q[1..][k - 1];
    }
  }

  lemma {:induction false} AddressIsNumber(a: Address)
    ensures AddressWord(a) == FromNat(ToNat(a), 32)
  {
    ToNatLeadingZeros(Zeros(12), a);
    FromNatToNat(AddressWord(a));
  }

  lemma BoolIsNumber(flag: bool)
    ensures BoolWord(flag) == FromNat(if flag then 1 else 0, 32)
  {
    var last: Bytes := [if flag then 1 else 0];
    ToNatLeadingZeros(Zeros(31), last);
    assert last[..0] == [] && ToNat(last) == last[0];
    FromNatToNat(BoolWord(flag));
  }

  lemma {:induction false} AddressesAreNumbers(addresses: seq<Address>, words: seq<Bytes>)
    requires |words| == |addresses|
    requires forall i :: 0 <= i < |words| ==> words[i] == FromNat(ToNat(addresses[i]), 32)
    ensures AddressWords(addresses) == Concat(words)
  {
    if addresses != [] {
      AddressIsNumber(addresses[0]);
      AddressesAreNumbers(addresses[1..], words[1..]);
    }
  }

  lemma PaddingIs(n: nat)
    ensures (n + 31) / 32 * 32 - n == (32 - n % 32) % 32
  {
  }

  // What Encode writes of a value that isn't a tuple is the reference encoding.
  lemma {:induction false} LeafMatches(value: Value)
    requires !value.TupleValue?
    ensures |EncodeValue(value)| == |AbiValue(value)|
    ensures FitsMember(value) ==> EncodeValue(value) == AbiValue(value)
  {
    match value
    case AddressValue(a) => AddressIsNumber(a);
    case BoolValue(flag) => BoolIsNumber(flag);
    case BytesValue(bytes) =>
      PaddingIs(|bytes|);
      if |bytes| < UINT64 { SmallUint(|bytes|); }
    case AddressesValue(addresses) =>
      AddressesAreNumbers(addresses, seq(|addresses|, i requires 0 <= i < |addresses| => FromNat(ToNat(addresses[i]), 32)));
      if |addresses| < UINT64 { SmallUint(|addresses|); }
    case _ =>
  }

  lemma {:induction false} SameLength(value: Value)
    ensures |EncodeValue(value)| == |AbiValue(value)|
    decreases value, 0
  {
    if value.TupleValue? {
      SameShapes(value.values);
    } else {
      LeafMatches(value);
    }
  }

  lemma {:induction false} SameShapes(values: seq<Value>)
    ensures SameShape(Parts(values), AbiParts(values))
    ensures |Encode(values)| == |AbiTuple(values)| == HeadSize(AbiParts(values)) + |Tails(AbiParts(values))|
    decreases values, 2
  {
    var p, q := Parts(values), AbiParts(values);
    forall i | 0 <= i < |values| ensures |p[i].bytes| == |q[i].bytes| {
      SameLength(values[i]);
    }
    ShapeLengths(p, q);
    HeadsLength(p, 32 * |values|, 0);
    HeadsFromIsConcat(q, 0, seq(|q|, i requires 0 <= i < |q| => AbiHead(q, i)));
    HeadsFromLength(q, 0);
  }

  lemma {:induction false} MemberMatches(value: Value)
    requires FitsMember(value)
    ensures EncodeValue(value) == AbiValue(value) <==> CountsMember(value)
    decreases value, 0
  {
    if value.TupleValue? {
      MatchesReference(value.values);
    } else {
      LeafMatches(value);
    }
  }

  // Encode writes the reference encoding exactly when each tuple with a dynamic
  // member has heads of 32 bytes for each member.
  lemma {:induction false} MatchesReference(values: seq<Value>)
    requires Fits(values)
    ensures Encode(values) == AbiTuple(values) <==> CountsHeads(values)
    decreases values, 2
  {
    var p, q, base := Parts(values), AbiParts(values), 32 * |values|;
    SameShapes(values);
    forall i | 0 <= i < |values| ensures p[i].bytes == q[i].bytes <==> CountsMember(values[i]) {
      MemberMatches(values[i]);
    }
    LayoutMatches(p, q, base);
    if HasDynamic(values) {
      var v :| v in values && IsDynamic(v);
      var i :| 0 <= i < |values| && values[i] == v;
      assert p[i].dynamic;
    }
  }

  // Two layouts of parts of the same shape are the same exactly when the parts
  // are, and the base of the offsets is the size of the heads.
  lemma {:induction false} LayoutMatches(p: seq<Part>, q: seq<Part>, base: nat)
    requires SameShape(p, q)
    requires base + |Tails(p)| < UINT64 && HeadSize(q) + |Tails(q)| < UINT64
    ensures Heads(p, base, 0) + Tails(p)
            == Concat(seq(|q|, i requires 0 <= i < |q| => AbiHead(q, i))) + Tails(q)
       <==> forall i :: 0 <= i < |p| ==> (p[i].dynamic ==> base == HeadSize(q)) && p[i].bytes == q[i].bytes
  {
    HeadsLength(p, base, 0);
    var heads := seq(|q|, i requires 0 <= i < |q| => AbiHead(q, i));
    HeadsFromIsConcat(q, 0, heads);
    assert heads[0..] == heads && p[0..] == p && q[0..] == q;
    HeadsFromLength(q, 0);
    ShapeLengths(p, q);
    HeadsMatch(p, q, base, 0);
    TailsMatch(p, q);
    ConcatEqual(Heads(p, base, 0), Tails(p), HeadsFrom(q, 0), Tails(q));
    assert forall i :: 0 <= i < |p| ==>
      ((HeadMatches(p, q, base, i) && (p[i].dynamic ==> p[i].bytes == q[i].bytes))
        <==> ((p[i].dynamic ==> base == HeadSize(q)) && p[i].bytes == q[i].bytes));
  }

  // A static tuple of two words before bytes is enough to break the offsets: by
  // the reference, the bytes' head is word 2, but Encode writes the offset 64 in
  // it, where it is itself, so that reading the bytes returns their encoding.
  lemma StaticPairMisplacesBytes(w0: Word, w1: Word, bytes: Bytes)
    requires 0 < |bytes| <= 32
    ensures var values := [TupleValue([WordValue(w0), WordValue(w1)]), BytesValue(bytes)];
            && !CountsHeads(values)
            && ReadBytes(Encode(values), 2) == Some(EncodeValue(BytesValue(bytes)))
            && EncodeValue(BytesValue(bytes)) != bytes
  {
    PairThenBytes(w0, w1, bytes);
    OwnOffsetReads(w0 + w1, EncodeValue(BytesValue(bytes)));
    PairTakesTwoWords(w0, w1, bytes);
  }

  lemma {:induction false} PairThenBytes(w0: Word, w1: Word, bytes: Bytes)
    ensures Encode([TupleValue([WordValue(w0), WordValue(w1)]), BytesValue(bytes)])
         == (w0 + w1) + Uint64Word(64) + EncodeValue(BytesValue(bytes))
  {
    var pair, tail := TupleValue([WordValue(w0), WordValue(w1)]), EncodeValue(BytesValue(bytes));
    var values := [pair, BytesValue(bytes)];
    var parts := Parts(values);
    PairEncodes(w0, w1);
    MemberPart(values, 0);
    MemberPart(values, 1);
    assert parts[0] == Part(false, w0 + w1) && parts[1] == Part(true, tail);
    assert parts == [Part(false, w0 + w1), Part(true, tail)];
    TwoPartsLayOut(w0 + w1, tail);
  }

  // Where word 2 is the offset 64, 64 bytes from there are read.
  lemma OwnOffsetReads(head: Bytes, tail: Bytes)
    requires |head| == 64 && |tail| == 64
    ensures ReadBytes(head + Uint64Word(64) + tail, 2) == Some(tail)
  {
    var data := head + Uint64Word(64) + tail;
    assert ReadWord(data, 64) == Some(Uint64Word(64));
    Uint64WordReads(64);
    assert data[96..160] == tail;
  }

  lemma PairTakesTwoWords(w0: Word, w1: Word, bytes: Bytes)
    ensures !CountsHeads([TupleValue([WordValue(w0), WordValue(w1)]), BytesValue(bytes)])
  {
    var values := [TupleValue([WordValue(w0), WordValue(w1)]), BytesValue(bytes)];
    PairIsReference(w0, w1);
    MemberPart(values, 0);
    MemberPart(values, 1);
    assert AbiParts(values)[1..][0].dynamic && AbiParts(values)[1..][1..] == [];
    assert HeadSize(AbiParts(values)[1..]) == 32;
    assert IsDynamic(values[1]);
  }

  lemma {:induction false} MemberPart(values: seq<Value>, i: nat)
    requires i < |values|
    ensures Parts(values)[i] == Part(IsDynamic(values[i]), EncodeValue(values[i]))
    ensures AbiParts(values)[i] == Part(IsDynamic(values[i]), AbiValue(values[i]))
  {
  }

  lemma PairEncodes(w0: Word, w1: Word)
    ensures EncodeValue(TupleValue([WordValue(w0), WordValue(w1)])) == w0 + w1
  {
    var values := [WordValue(w0), WordValue(w1)];
    var parts := Parts(values);
    MemberPart(values, 0);
    MemberPart(values, 1);
    assert parts == [Part(false, w0), Part(false, w1)];
    WordsLayOut(w0, w1);
  }

  lemma WordsLayOut(w0: Word, w1: Word)
    ensures var parts := [Part(false, w0), Part(false, w1)];
            Heads(parts, 64, 0) + Tails(parts) == w0 + w1
            && Concat(seq(|parts|, i requires 0 <= i < |parts| => AbiHead(parts, i))) + Tails(parts) == w0 + w1
  {
    var parts := [Part(false, w0), Part(false, w1)];
    assert parts[1..] == [Part(false, w1)] && parts[1..][1..] == [];
    assert !parts[0].dynamic && !parts[1].dynamic && !parts[1..][0].dynamic;
    assert Heads(parts[1..], 64, 0) == w1 && TailOf(parts[1]) == [];
    assert Tails(parts[1..]) == [];
    var heads := seq(|parts|, i requires 0 <= i < |parts| => AbiHead(parts, i));
    assert heads == [w0, w1] && heads[1..] == [w1];
    assert Concat(heads[1..]) == w1;
  }

  lemma PairIsReference(w0: Word, w1: Word)
    ensures AbiValue(TupleValue([WordValue(w0), WordValue(w1)])) == w0 + w1
  {
    var values := [WordValue(w0), WordValue(w1)];
    var parts := AbiParts(values);
    MemberPart(values, 0);
    MemberPart(values, 1);
    assert parts == [Part(false, w0), Part(false, w1)];
    WordsLayOut(w0, w1);
  }

  lemma TwoPartsLayOut(first: Bytes, tail: Bytes)
    ensures var parts := [Part(false, first), Part(true, tail)];
            Heads(parts, 64, 0) + Tails(parts) == first + Uint64Word(64) + tail
  {
    var parts := [Part(false, first), Part(true, tail)];
    assert parts[1..] == [Part(true, tail)] && parts[1..][1..] == [];
    assert Heads(parts[1..], 64, 0) == Uint64Word(64);
    assert Tails(parts[1..]) == tail;
  }
}

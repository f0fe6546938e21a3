// What the decoder accepts: exactly the encodings of values of each type, at the offsets
// that the data itself gives.
module SolAbiExact {
  import opened Wrappers
  import opened EthTypes
  import opened SolAbi
  import opened SolAbiTheorems

  // Some bytes are in data from an offset on.
  predicate Has(data: Bytes, offset: nat, bytes: Bytes) {
    offset + |bytes| <= |data| && data[offset..offset + |bytes|] == bytes
  }

  lemma WordExactly(data: Bytes, offset: nat)
    ensures forall w: Word :: ReadWord(data, offset) == Some(w) <==> Has(data, offset, w)
    ensures ReadWord(data, offset).None? <==> offset + 32 > |data|
  {
  }

  // A number of any size is read of its word.
  lemma {:induction false} UintExactly(data: Bytes, i: nat, x: nat)
    requires x < UINT256
    ensures ReadUint(data, i) == Some(x) <==> Has(data, 32 * i, FromNat(x, 32))
    ensures ReadUint(data, i).None? <==> 32 * i + 32 > |data|
  {
    NumberWord(x);
    var read := ReadWord(data, 32 * i);
    if read.Some? {
      FromNatToNat(read.value);
    }
  }

  // A number is read as 64 bits exactly if it fits in them.
  lemma Uint64Exactly(data: Bytes, offset: nat)
    ensures forall x: nat :: ReadUint64At(data, offset) == Some(x) <==> x < UINT64 && Has(data, offset, FromNat(x, 32))
  {
    forall x: nat ensures ReadUint64At(data, offset) == Some(x) <==> x < UINT64 && Has(data, offset, FromNat(x, 32)) {
      OneUint64(data, offset, x);
    }
  }

  lemma {:induction false} OneUint64(data: Bytes, offset: nat, x: nat)
    ensures ReadUint64At(data, offset) == Some(x) <==> x < UINT64 && Has(data, offset, FromNat(x, 32))
  {
    var read := ReadWord(data, offset);
    if read.Some? {
      var w := read.value;
      assert w == w[..24] + w[24..];
      if IsZero(w[..24]) {
        assert w[..24] == Zeros(24);
        PowersOf256();
        EightBytes(w[24..]);
        ToNatLeadingZeros(Zeros(24), w[24..]);
        FromNatToNat(w);
      }
    }
    if x < UINT64 && Has(data, offset, FromNat(x, 32)) {
      SmallUint(x);
      Uint64WordReads(x);
    }
  }

  lemma {:induction false} EightBytes(b: Bytes)
    requires |b| == 8
    ensures ToNat(b) < UINT64
  {
    Below(b);
    PowersOf256();
  }

  lemma {:induction false} Below(b: Bytes)
    ensures ToNat(b) < Pow256(|b|)
  {
    if b != [] {
      Below(b[..|b| - 1]);
    }
  }

  lemma AddressExactly(data: Bytes, i: nat)
    ensures forall a: Address :: ReadAddress(data, i) == Some(a) <==> Has(data, 32 * i, Zeros(12) + a)
  {
    forall a: Address ensures ReadAddress(data, i) == Some(a) <==> Has(data, 32 * i, Zeros(12) + a) {
      var read := ReadWord(data, 32 * i);
      if read.Some? {
        assert read.value == read.value[..12] + read.value[12..];
        assert IsZero(read.value[..12]) ==> read.value[..12] == Zeros(12);
      }
      if Has(data, 32 * i, Zeros(12) + a) {
        assert read.value == Zeros(12) + a && read.value[..12] == Zeros(12) && read.value[12..] == a;
      }
    }
  }

  lemma BoolExactly(data: Bytes, i: nat, flag: bool)
    ensures ReadBool(data, i) == Some(flag) <==> Has(data, 32 * i, Zeros(31) + [if flag then 1 else 0])
  {
    var read := ReadWord(data, 32 * i);
    if read.Some? {
      assert read.value == read.value[..31] + [read.value[31]];
      assert IsZero(read.value[..31]) ==> read.value[..31] == Zeros(31);
    }
    if Has(data, 32 * i, Zeros(31) + [if flag then 1 else 0]) {
      assert read.value == Zeros(31) + [if flag then 1 else 0] && read.value[..31] == Zeros(31);
    }
  }

  // Bytes are read exactly if their offset and length are there, and they are in the data.
  lemma BytesExactly(data: Bytes, i: nat)
    ensures forall bytes: Bytes :: ReadBytes(data, i) == Some(bytes) <==> HasBytes(data, i, bytes)
  {
    Uint64Exactly(data, 32 * i);
    forall bytes: Bytes ensures ReadBytes(data, i) == Some(bytes) <==> HasBytes(data, i, bytes) {
      var offset := ReadUint64(data, i);
      if offset.Some? {
        BytesFrom(data, offset.value, bytes);
        assert HasBytesAt(data, i, bytes, offset.value) ==> HasBytes(data, i, bytes);
      }
      if HasBytes(data, i, bytes) {
        var at: nat :| HasBytesAt(data, i, bytes, at);
        assert offset == Some(at);
      }
    }
  }

  // The length at an offset, and that many bytes after it.
  lemma BytesFrom(data: Bytes, offset: nat, bytes: Bytes)
    ensures |bytes| < UINT64 && Has(data, offset, FromNat(|bytes|, 32)) && Has(data, offset + 32, bytes) <==>
      && ReadUint64At(data, offset) == Some(|bytes|) && offset + 32 + |bytes| <= |data|
      && data[offset + 32..offset + 32 + |bytes|] == bytes
  {
    Uint64Exactly(data, offset);
  }

  ghost predicate HasBytes(data: Bytes, i: nat, bytes: Bytes) {
    exists offset: nat :: HasBytesAt(data, i, bytes, offset)
  }

  predicate HasBytesAt(data: Bytes, i: nat, bytes: Bytes, offset: nat) {
    && offset < UINT64 && |bytes| < UINT64
    && Has(data, 32 * i, FromNat(offset, 32)) && Has(data, offset, FromNat(|bytes|, 32)) && Has(data, offset + 32, bytes)
  }

  // A nested tuple is what is in the data from its offset on.
  lemma TupleExactly(data: Bytes, i: nat)
    ensures forall inner: Bytes :: ReadTuple(data, i) == Some(inner) <==>
      exists offset: nat :: IsTupleAt(data, i, inner, offset)
  {
    Uint64Exactly(data, 32 * i);
    forall inner: Bytes ensures ReadTuple(data, i) == Some(inner) <==> exists offset: nat :: IsTupleAt(data, i, inner, offset) {
      var offset := ReadUint64(data, i);
      if offset.Some? && offset.value <= |data| && inner == data[offset.value..] {
        assert IsTupleAt(data, i, inner, offset.value);
      }
    }
  }

  predicate IsTupleAt(data: Bytes, i: nat, inner: Bytes, offset: nat) {
    offset < UINT64 && offset <= |data| && Has(data, 32 * i, FromNat(offset, 32)) && inner == data[offset..]
  }
}

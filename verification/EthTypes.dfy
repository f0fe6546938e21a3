// Bytes, words and addresses, and the big-endian numbers in them.
module EthTypes {
  type Byte = x: int | 0 <= x < 256

  type Bytes = seq<Byte>

  type Word = w: Bytes | |w| == 32 witness Zeros(32)

  type Address = a: Bytes | |a| == 20 witness Zeros(20)

  const ZERO_ADDRESS: Address := Zeros(20)
  const ZERO_WORD: Word := Zeros(32)

  // The address that starts and ends the lists of a Safe.
  const SENTINEL: Address := Zeros(19) + [1]

  // No text that a contract logs, or is called with, is longer than 4 GiB.
  const MAX_TEXT := 0x1_0000_0000

  // One more than the largest value that fits in 64 and in 256 bits.
  const UINT64 := 0x1_0000_0000_0000_0000
  const UINT256 := UINT64 * UINT64 * UINT64 * UINT64

  function Zeros(n: nat): (z: Bytes)
    ensures |z| == n && forall i :: 0 <= i < n ==> z[i] == 0
  {
    seq(n, _ => 0)
  }

  predicate IsZero(b: Bytes) {
    forall i :: 0 <= i < |b| ==> b[i] == 0
  }

  function Pow256(n: nat): (p: nat)
    ensures p > 0
  {
    if n == 0 then 1 else 256 * Pow256(n - 1)
  }

  // The number that b is the big-endian encoding of.
  function ToNat(b: Bytes): nat {
    if b == [] then 0 else 256 * ToNat(b[..|b| - 1]) + b[|b| - 1]
  }

  // The low n bytes of x, big-endian.
  function FromNat(x: nat, n: nat): (b: Bytes)
    ensures |b| == n
  {
    if n == 0 then [] else FromNat(x / 256, n - 1) + [x % 256]
  }

  lemma {:induction false} ToNatFromNat(x: nat, n: nat)
    requires x < Pow256(n)
    ensures ToNat(FromNat(x, n)) == x
  {
    if n > 0 {
      ToNatFromNat(x / 256, n - 1);
      assert FromNat(x, n)[..n - 1] == FromNat(x / 256, n - 1);
    }
  }

  lemma {:induction false} FromNatToNat(b: Bytes)
    ensures FromNat(ToNat(b), |b|) == b
  {
    if b != [] {
      FromNatToNat(b[..|b| - 1]);
      assert b == b[..|b| - 1] + [b[|b| - 1]];
    }
  }

  lemma {:induction false} ToNatBound(b: Bytes)
    ensures ToNat(b) < Pow256(|b|)
  {
    if b != [] {
      ToNatBound(b[..|b| - 1]);
    }
  }

  lemma {:induction false} ToNatOfZeros(z: Bytes)
    requires IsZero(z)
    ensures ToNat(z) == 0
  {
    if z != [] {
      ToNatOfZeros(z[..|z| - 1]);
    }
  }

  lemma {:induction false} ToNatLeadingZeros(z: Bytes, b: Bytes)
    requires IsZero(z)
    ensures ToNat(z + b) == ToNat(b)
  {
    if b == [] {
      assert z + b == z;
      ToNatOfZeros(z);
    } else {
      assert (z + b)[..|z + b| - 1] == z + b[..|b| - 1];
      ToNatLeadingZeros(z, b[..|b| - 1]);
    }
  }

  lemma {:induction false} Pow256Sum(m: nat, n: nat)
    ensures Pow256(m + n) == Pow256(m) * Pow256(n)
  {
    if m > 0 {
      Pow256Sum(m - 1, n);
    }
  }

  lemma PowersOf256()
    ensures Pow256(4) == 0x1_0000_0000
    ensures Pow256(8) == UINT64
    ensures Pow256(16) == UINT64 * UINT64
    ensures Pow256(32) == UINT256
  {
    assert Pow256(2) == 256 * Pow256(1) == 0x1_0000;
    Pow256Sum(2, 2);
    Pow256Sum(4, 4);
    Pow256Sum(8, 8);
    Pow256Sum(16, 16);
  }

  // A word is a number below 2^256, and back.
  lemma {:induction false} WordNumber(w: Word)
    ensures ToNat(w) < UINT256
    ensures FromNat(ToNat(w), 32) == w
  {
    ToNatBound(w);
    PowersOf256();
    FromNatToNat(w);
  }

  lemma {:induction false} NumberWord(x: nat)
    requires x < UINT256
    ensures ToNat(FromNat(x, 32)) == x
  {
    PowersOf256();
    ToNatFromNat(x, 32);
  }
}

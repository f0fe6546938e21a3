// What the expander makes of transactions that are invalid, cut off, or followed by more
// bytes, and of the zero address.
module MultiSendRules {
  import opened EthTypes
  import opened SolAbi
  import opened Calls
  import opened MultiSendExpander
  import opened MultiSendRoundTrip

  // ---- The zero address --------------------------------------------------------------

  predicate NoneIs150(multiSends: MultiSends) {
    forall to :: to in multiSends ==> multiSends[to].version != "1.5.0"
  }

  predicate AllAre150(multiSends: MultiSends) {
    forall to :: to in multiSends ==> multiSends[to].version == "1.5.0"
  }

  // Without a MultiSend 1.5.0, what calls expand to doesn't depend on the Safe.
  lemma {:induction false} SafeDoesNotMatter(multiSends: MultiSends, safe: Address, other: Address, c: Call)
    requires NoneIs150(multiSends)
    ensures Expand(multiSends, safe, c) == Expand(multiSends, other, c)
    decreases Stripped(c.data), 0, 0
  {
    if RunsMultiSend(multiSends, c) {
      StrippedTransactions(c.data, Transactions(c));
      SafeDoesNotMatterFrom(multiSends, safe, other, multiSends[c.to], Transactions(c), 0);
    }
  }

  lemma {:induction false} SafeDoesNotMatterFrom(
    multiSends: MultiSends, safe: Address, other: Address, ms: MultiSend, t: Bytes, offset: nat)
    requires NoneIs150(multiSends) && ms.version != "1.5.0"
    ensures ExpandFrom(multiSends, safe, ms, t, offset) == ExpandFrom(multiSends, other, ms, t, offset)
    decreases Stripped(t), 1, if offset <= |t| then |t| - offset else 0
  {
    if |t| - offset > 32 {
      StrippedRead(t, offset + 85, DataLength(t, offset));
      SafeDoesNotMatter(multiSends, safe, other, SubCall(ms, safe, t, offset));
      SafeDoesNotMatterFrom(multiSends, safe, other, ms, t, Next(t, offset));
    }
  }

  // If they are all 1.5.0, none of the calls that one makes is to the zero address.
  lemma {:induction false} NoneIsToZero(multiSends: MultiSends, safe: Address, c: Call)
    requires AllAre150(multiSends) && safe != ZERO_ADDRESS
    requires (RunsMultiSend(multiSends, c) || c.to != ZERO_ADDRESS) && Expand(multiSends, safe, c).Expanded?
    ensures forall d :: d in Expand(multiSends, safe, c).calls ==> d.to != ZERO_ADDRESS
    decreases Stripped(c.data), 0, 0
  {
    if RunsMultiSend(multiSends, c) {
      StrippedTransactions(c.data, Transactions(c));
      NoneIsToZeroFrom(multiSends, safe, multiSends[c.to], Transactions(c), 0);
    }
  }

  lemma {:induction false} NoneIsToZeroFrom(multiSends: MultiSends, safe: Address, ms: MultiSend, t: Bytes, offset: nat)
    requires AllAre150(multiSends) && ms.version == "1.5.0" && safe != ZERO_ADDRESS
    requires ExpandFrom(multiSends, safe, ms, t, offset).Expanded?
    ensures forall d :: d in ExpandFrom(multiSends, safe, ms, t, offset).calls ==> d.to != ZERO_ADDRESS
    decreases Stripped(t), 1, if offset <= |t| then |t| - offset else 0
  {
    if |t| - offset > 32 {
      StrippedRead(t, offset + 85, DataLength(t, offset));
      NoneIsToZero(multiSends, safe, SubCall(ms, safe, t, offset));
      NoneIsToZeroFrom(multiSends, safe, ms, t, Next(t, offset));
    }
  }

  // ---- Invalid transactions ------------------------------------------------------------

  // The bytes of a transaction before its data, with a length that may not be the data's.
  function Head(c: Call, length: nat): Bytes
    requires 0 <= c.value
  {
    [c.operation] + (c.to + (FromNat(c.value, 32) + FromNat(length, 32)))
  }

  lemma HeadAt(pre: Bytes, c: Call, length: nat, rest: Bytes)
    requires 0 <= c.value && length < UINT256
    ensures var t, at := pre + (Head(c, length) + rest), |pre|;
            At(t, at) == c.operation && DataLength(t, at) == length && |t| >= at + 85
  {
    var t, value, word := pre + (Head(c, length) + rest), FromNat(c.value, 32), FromNat(length, 32);
    var before := pre + [c.operation] + c.to + value;
    assert t == before + (word + rest);
    ReadMiddle(before, word, rest);
    NumberWord(length);
  }

  // The MultiSend can't run a transaction: its operation isn't one, or is a delegate call
  // that it doesn't make, or its data is too long.
  predicate CannotRun(ms: MultiSend, operation: Byte, length: nat) {
    operation > 1 || (ms.callOnly && operation != 0) || length > 0x100_0000
  }

  lemma {:induction false} CannotRunReverts(
    multiSends: MultiSends, safe: Address, ms: MultiSend, pre: Bytes, c: Call, length: nat, rest: Bytes)
    requires 0 <= c.value && length < UINT256 && CannotRun(ms, c.operation, length)
    ensures ExpandFrom(multiSends, safe, ms, pre + (Head(c, length) + rest), |pre|) == Reverts
  {
    HeadAt(pre, c, length, rest);
  }

  // A transaction that the MultiSend can't run reverts all of them, after any others and
  // before any bytes.
  lemma {:induction false} InvalidReverts(
    multiSends: MultiSends, safe: Address, root: Call, trees: seq<Tree>, c: Call, length: nat, rest: Bytes)
    requires root.to in multiSends && root.operation == DELEGATE_CALL && |root.data| < UINT64
    requires 0 <= c.value && length < UINT256 && CannotRun(multiSends[root.to], c.operation, length)
    requires root.data == CallData(MULTI_SEND, [BytesValue(Pack(trees) + (Head(c, length) + rest))])
    requires forall tree :: tree in trees ==> ValidTree(multiSends, safe, multiSends[root.to], tree)
    ensures Expand(multiSends, safe, root) == Reverts
  {
    var ms, tail := multiSends[root.to], Head(c, length) + rest;
    var t := Pack(trees) + tail;
    BatchTransactions(t);
    AfterPacked(multiSends, safe, ms, trees, tail);
    CannotRunReverts(multiSends, safe, ms, Pack(trees), c, length, rest);
  }

  // What follows packed transactions.
  lemma {:induction false} AfterPacked(
    multiSends: MultiSends, safe: Address, ms: MultiSend, trees: seq<Tree>, tail: Bytes)
    requires forall tree :: tree in trees ==> ValidTree(multiSends, safe, ms, tree)
    ensures ExpandFrom(multiSends, safe, ms, Pack(trees) + tail, 0)
         == Before(AllLeaves(multiSends, safe, ms, trees),
                   ExpandFrom(multiSends, safe, ms, Pack(trees) + tail, |Pack(trees)|))
  {
    if trees != [] {
      forall tree | tree in trees ensures Packable(tree) {
        ValidIsPackable(multiSends, safe, ms, tree);
      }
      LastIsLonger(trees);
    }
    PackedThen(multiSends, safe, ms, trees, Pack(trees) + tail);
  }

  // The round trip also when zeros at the end of the last transaction are cut off, if more
  // than 32 of its bytes are left, and when at most 32 bytes follow it. As a transaction
  // may be all zeros, that is also where bytes start to be a transaction.
  lemma {:induction false} CutRoundTrip(multiSends: MultiSends, safe: Address, root: Call, trees: seq<Tree>, s: Bytes)
    requires root.to in multiSends && root.operation == DELEGATE_CALL && |root.data| < UINT64
    requires root.data == CallData(MULTI_SEND, [BytesValue(s)])
    requires forall tree :: tree in trees ==> ValidTree(multiSends, safe, multiSends[root.to], tree)
    requires Agrees(s, Pack(trees)) && |s| <= |Pack(trees)| + 32 && ReachesLast(|s|, [], trees)
    ensures Expand(multiSends, safe, root) == Expanded(AllLeaves(multiSends, safe, multiSends[root.to], trees))
  {
    var leaves := AllLeaves(multiSends, safe, multiSends[root.to], trees);
    BatchTransactions(s);
    assert leaves + [] == leaves;
    PackedThen(multiSends, safe, multiSends[root.to], trees, s);
  }
}

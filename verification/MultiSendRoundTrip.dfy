// Packing nested batches of calls as the source's tests do, and expanding them.
module MultiSendRoundTrip {
  import opened Wrappers
  import opened EthTypes
  import opened SolAbi
  import opened SolAbiTheorems
  import opened Calls
  import opened MultiSendExpander

  // A call, or a delegate call to a MultiSend that makes the calls of its children.
  datatype Tree = Leaf(call: Call) | Batch(to: Address, value: nat, children: seq<Tree>)

  // One transaction of a MultiSend.
  function PackOne(c: Call): Bytes
    requires 0 <= c.value
  {
    [c.operation] + (c.to + (FromNat(c.value, 32) + (Uint64Word(|c.data|) + c.data)))
  }

  // Calls packed as a MultiSend's transactions.
  function Pack(trees: seq<Tree>): Bytes
    decreases trees, 0
  {
    if trees == [] then [] else PackTree(trees[0]) + Pack(trees[1..])
  }

  // A negative value, which panics in the source, packs as nothing.
  function PackTree(tree: Tree): Bytes
    decreases tree, 1
  {
    var c := CallOf(tree);
    if c.value < 0 then [] else PackOne(c)
  }

  // The call that a tree is packed as.
  function CallOf(tree: Tree): Call
    decreases tree, 0
  {
    match tree
    case Leaf(c) => c
    case Batch(to, value, children) =>
      Call(to, value, CallData(MULTI_SEND, [BytesValue(Pack(children))]), DELEGATE_CALL, Batched)
  }

  // The call that a MultiSend makes for a tree: in 1.5.0, one to the zero address is to the
  // Safe.
  function MadeBy(ms: MultiSend, safe: Address, tree: Tree): Call {
    var c := CallOf(tree);
    c.(to := if ms.version == "1.5.0" && c.to == ZERO_ADDRESS then safe else c.to, kind := Batched)
  }

  // Whether the expander leaves a call as it is: a call to another account, one
  // of a MultiSendCallOnly itself, or one whose arguments don't decode.
  predicate LeftAlone(multiSends: MultiSends, c: Call) {
    || c.to !in multiSends
    || (&& MULTI_SEND <= c.data
        && (c.operation == CALL ==> multiSends[c.to].callOnly)
        && !RunsMultiSend(multiSends, c))
  }

  // Whether ms can make the call of a tree, and the MultiSends in the tree can
  // make those of their children.
  predicate ValidTree(multiSends: MultiSends, safe: Address, ms: MultiSend, tree: Tree)
    decreases tree
  {
    var c := MadeBy(ms, safe, tree);
    && (c.operation == 0 || (c.operation == 1 && !ms.callOnly))
    && 0 <= c.value < UINT256
    && |c.data| <= 0x100_0000
    && match tree
       case Leaf(_) => LeftAlone(multiSends, c)
       case Batch(_, _, children) =>
         c.to in multiSends && forall child :: child in children ==> ValidTree(multiSends, safe, multiSends[c.to], child)
  }

  // The leaves of a tree that ms makes the call of, in order, as the Safe makes
  // them: batched, with the zero address replaced as their own MultiSend does.
  function Leaves(multiSends: MultiSends, safe: Address, ms: MultiSend, tree: Tree): seq<Call>
    decreases tree, 0
  {
    match tree
    case Leaf(_) => [MadeBy(ms, safe, tree)]
    case Batch(_, _, children) =>
      var to := MadeBy(ms, safe, tree).to;
      if to in multiSends then AllLeaves(multiSends, safe, multiSends[to], children) else []
  }

  function AllLeaves(multiSends: MultiSends, safe: Address, ms: MultiSend, trees: seq<Tree>): seq<Call>
    decreases trees, 1
  {
    if trees == [] then []
    else Leaves(multiSends, safe, ms, trees[0]) + AllLeaves(multiSends, safe, ms, trees[1..])
  }

  // ---- Reading packed transactions -------------------------------------------

  lemma ReadMiddle(pre: Bytes, part: Bytes, post: Bytes)
    ensures Read(pre + (part + post), |pre|, |part|) == part
  {
    var t := pre + (part + post);
    assert forall i :: 0 <= i < |part| ==> At(t, |pre| + i) == part[i];
  }

  // Call c is the transaction at an offset of t.
  predicate IsAt(t: Bytes, at: nat, c: Call) {
    && At(t, at) == c.operation
    && Read(t, at + 1, 20) == c.to
    && ToNat(Read(t, at + 21, 32)) == c.value
    && DataLength(t, at) == |c.data|
    && Read(t, at + 85, |c.data|) == c.data
  }

  lemma PackedAt(pre: Bytes, c: Call, rest: Bytes)
    requires 0 <= c.value < UINT256 && |c.data| < UINT64
    ensures IsAt(pre + (PackOne(c) + rest), |pre|, c)
  {
    var t, at := pre + (PackOne(c) + rest), |pre|;
    var value, length := FromNat(c.value, 32), Uint64Word(|c.data|);
    var p1 := pre + [c.operation];
    var p2 := p1 + c.to;
    var p3 := p2 + value;
    var p4 := p3 + length;
    assert t == pre + ([c.operation] + (c.to + (value + (length + (c.data + rest)))));
    assert t == p1 + (c.to + (value + (length + (c.data + rest))));
    ReadMiddle(p1, c.to, value + (length + (c.data + rest)));
    assert t == p2 + (value + (length + (c.data + rest)));
    ReadMiddle(p2, value, length + (c.data + rest));
    assert t == p3 + (length + (c.data + rest));
    ReadMiddle(p3, length, c.data + rest);
    assert t == p4 + (c.data + rest);
    ReadMiddle(p4, c.data, rest);
    NumberWord(c.value);
    SmallUint(|c.data|);
    NumberWord(|c.data|);
  }

  // s has the bytes of t, with zeros where it ends before t.
  predicate Agrees(s: Bytes, t: Bytes) {
    forall i :: 0 <= i < |t| ==> t[i] == At(s, i)
  }

  // More than 32 bytes of the last of some packed transactions are there.
  predicate ReachesLast(length: nat, pre: Bytes, trees: seq<Tree>) {
    trees != [] ==> length > |pre| + |Pack(trees[..|trees| - 1])| + 32
  }

  lemma SameReads(s: Bytes, t: Bytes, at: nat, n: nat)
    requires Agrees(s, t) && at + n <= |t|
    ensures Read(s, at, n) == Read(t, at, n)
  {
    var a, b := Read(s, at, n), Read(t, at, n);
    forall i | 0 <= i < n ensures a[i] == b[i] {
      assert a[i] == At(s, at + i) && b[i] == At(t, at + i) == t[at + i];
    }
  }

  lemma {:induction false} AgreesIsAt(s: Bytes, pre: Bytes, c: Call, rest: Bytes)
    requires 0 <= c.value < UINT256 && |c.data| < UINT64 && Agrees(s, pre + (PackOne(c) + rest))
    ensures IsAt(s, |pre|, c)
  {
    var t, at := pre + (PackOne(c) + rest), |pre|;
    PackedAt(pre, c, rest);
    SameReads(s, t, at + 1, 20);
    SameReads(s, t, at + 21, 32);
    SameReads(s, t, at + 53, 32);
    SameReads(s, t, at + 85, |c.data|);
    assert At(s, at) == At(t, at);
  }

  lemma {:induction false} PackNext(tree: Tree, rest: seq<Tree>)
    requires CallOf(tree).value >= 0
    ensures Pack([tree] + rest) == PackOne(CallOf(tree)) + Pack(rest)
  {
    assert ([tree] + rest)[1..] == rest;
  }

  lemma {:induction false} LastIsLonger(trees: seq<Tree>)
    requires trees != [] && forall tree :: tree in trees ==> Packable(tree)
    ensures |Pack(trees)| >= |Pack(trees[..|trees| - 1])| + 85
  {
    var rest := trees[1..];
    assert trees[0] in trees && trees == [trees[0]] + rest;
    PackNext(trees[0], rest);
    if rest != [] {
      LastIsLonger(rest);
      assert trees[..|trees| - 1] == [trees[0]] + rest[..|rest| - 1];
      PackNext(trees[0], rest[..|rest| - 1]);
    }
  }

  lemma {:induction false} ReachesNext(length: nat, pre: Bytes, trees: seq<Tree>)
    requires trees != [] && Packable(trees[0]) && ReachesLast(length, pre, trees)
    ensures length > |pre| + 32 && ReachesLast(length, pre + PackOne(CallOf(trees[0])), trees[1..])
  {
    var rest := trees[1..];
    if rest != [] {
      assert trees[..|trees| - 1] == [trees[0]] + rest[..|rest| - 1];
      PackNext(trees[0], rest[..|rest| - 1]);
    }
  }

  lemma {:induction false} PackFirst(trees: seq<Tree>)
    requires trees != [] && Packable(trees[0])
    ensures Pack(trees) == PackOne(CallOf(trees[0])) + Pack(trees[1..])
    ensures |PackOne(CallOf(trees[0]))| == 85 + |CallOf(trees[0]).data|
  {
  }

  lemma Regrouped(a: Bytes, b: Bytes, c: Bytes)
    ensures a + (b + c) == (a + b) + c
  {
  }

  // The first of packed transactions is where they start.
  lemma {:induction false} FirstIsAt(pre: Bytes, trees: seq<Tree>, s: Bytes, t: Bytes) returns (next: Bytes)
    requires trees != [] && t == pre + Pack(trees) && Agrees(s, t)
    requires Packable(trees[0])
    ensures IsAt(s, |pre|, CallOf(trees[0])) && next == pre + PackOne(CallOf(trees[0]))
    ensures t == next + Pack(trees[1..]) && |next| == |pre| + 85 + |CallOf(trees[0]).data|
  {
    PackFirst(trees);
    next := pre + PackOne(CallOf(trees[0]));
    Regrouped(pre, PackOne(CallOf(trees[0])), Pack(trees[1..]));
    AgreesIsAt(s, pre, CallOf(trees[0]), Pack(trees[1..]));
  }

  // ---- The round trip ---------------------------------------------------------

  lemma BatchTransactions(packed: Bytes)
    requires |CallData(MULTI_SEND, [BytesValue(packed)])| < UINT64
    ensures var data := CallData(MULTI_SEND, [BytesValue(packed)]);
            MULTI_SEND <= data && ReadBytes(data[4..], 0) == Some(packed)
  {
    var values := [BytesValue(packed)];
    RoundTrip(values, []);
    assert Encode(values) + [] == Encode(values) == CallData(MULTI_SEND, values)[4..];
    assert DecodesAt(Encode(values), 0, values[0]);
  }

  lemma {:induction false} TreeExpands(multiSends: MultiSends, safe: Address, ms: MultiSend, tree: Tree)
    requires ValidTree(multiSends, safe, ms, tree)
    ensures Expand(multiSends, safe, MadeBy(ms, safe, tree)) == Expanded(Leaves(multiSends, safe, ms, tree))
    decreases tree, 0
  {
    if tree.Batch? {
      BatchTransactions(Pack(tree.children));
      var c := MadeBy(ms, safe, tree);
      TreesExpand(multiSends, safe, multiSends[c.to], tree.children);
    }
  }

  // The calls of the transactions from a tree's on are its leaves, and those that follow.
  lemma {:induction false} OneTransaction(
    multiSends: MultiSends, safe: Address, ms: MultiSend, t: Bytes, at: nat, tree: Tree)
    requires ValidTree(multiSends, safe, ms, tree) && IsAt(t, at, CallOf(tree)) && |t| - at > 32
    ensures ExpandFrom(multiSends, safe, ms, t, at)
         == Before(Leaves(multiSends, safe, ms, tree),
                   ExpandFrom(multiSends, safe, ms, t, at + 85 + |CallOf(tree).data|))
    decreases tree, 1
  {
    TreeExpands(multiSends, safe, ms, tree);
    SubCallIs(multiSends, safe, ms, t, at, tree);
  }

  lemma {:induction false} SubCallIs(
    multiSends: MultiSends, safe: Address, ms: MultiSend, t: Bytes, at: nat, tree: Tree)
    requires ValidTree(multiSends, safe, ms, tree) && IsAt(t, at, CallOf(tree))
    ensures SubCall(ms, safe, t, at) == MadeBy(ms, safe, tree) && !InvalidAt(ms, t, at)
    ensures Next(t, at) == at + 85 + |CallOf(tree).data|
  {
  }

  // Some trees are the transactions from an offset on.
  predicate AreAt(s: Bytes, at: nat, trees: seq<Tree>)
    decreases |trees|
  {
    trees == []
    || (IsAt(s, at, CallOf(trees[0])) && |s| - at > 32 && AreAt(s, at + 85 + |CallOf(trees[0]).data|, trees[1..]))
  }

  function EndOf(at: nat, trees: seq<Tree>): nat
    decreases |trees|
  {
    if trees == [] then at else EndOf(at + 85 + |CallOf(trees[0]).data|, trees[1..])
  }

  lemma {:induction false} NextAreAt(s: Bytes, at: nat, trees: seq<Tree>) returns (next: nat)
    requires trees != [] && AreAt(s, at, trees)
    ensures next == at + 85 + |CallOf(trees[0]).data|
    ensures IsAt(s, at, CallOf(trees[0])) && |s| - at > 32
    ensures AreAt(s, next, trees[1..]) && EndOf(at, trees) == EndOf(next, trees[1..])
  {
    next := at + 85 + |CallOf(trees[0]).data|;
  }

  predicate Packable(tree: Tree) {
    0 <= CallOf(tree).value < UINT256 && |CallOf(tree).data| < UINT64
  }

  // Packed transactions are there, also where the last one ends in zeros that are cut off.
  lemma {:induction false} PackedAreAt(pre: Bytes, trees: seq<Tree>, s: Bytes, t: Bytes)
    requires forall tree :: tree in trees ==> Packable(tree)
    requires t == pre + Pack(trees) && Agrees(s, t) && ReachesLast(|s|, pre, trees)
    ensures AreAt(s, |pre|, trees) && EndOf(|pre|, trees) == |t|
    decreases |trees|
  {
    if trees != [] {
      assert trees[0] in trees;
      var next := FirstIsAt(pre, trees, s, t);
      ReachesNext(|s|, pre, trees);
      PackedAreAt(next, trees[1..], s, t);
    }
  }

  // The calls of transactions are their leaves, and those that follow.
  lemma {:induction false} ThenExpand(
    multiSends: MultiSends, safe: Address, ms: MultiSend, trees: seq<Tree>, s: Bytes, at: nat)
    requires forall tree :: tree in trees ==> ValidTree(multiSends, safe, ms, tree)
    requires AreAt(s, at, trees)
    ensures ExpandFrom(multiSends, safe, ms, s, at)
         == Before(AllLeaves(multiSends, safe, ms, trees), ExpandFrom(multiSends, safe, ms, s, EndOf(at, trees)))
    decreases trees, 2
  {
    var rest := ExpandFrom(multiSends, safe, ms, s, EndOf(at, trees));
    if trees == [] {
      BeforeBoth([], [], rest);
    } else {
      assert trees[0] in trees;
      var next := NextAreAt(s, at, trees);
      OneTransaction(multiSends, safe, ms, s, at, trees[0]);
      ThenExpand(multiSends, safe, ms, trees[1..], s, next);
      var first, others := Leaves(multiSends, safe, ms, trees[0]), AllLeaves(multiSends, safe, ms, trees[1..]);
      BeforeBoth(first, others, rest);
      assert AllLeaves(multiSends, safe, ms, trees) == first + others;
    }
  }

  lemma {:induction false} ValidIsPackable(multiSends: MultiSends, safe: Address, ms: MultiSend, tree: Tree)
    requires ValidTree(multiSends, safe, ms, tree)
    ensures Packable(tree)
  {
  }

  lemma {:induction false} PackedThen(
    multiSends: MultiSends, safe: Address, ms: MultiSend, trees: seq<Tree>, s: Bytes)
    requires forall tree :: tree in trees ==> ValidTree(multiSends, safe, ms, tree)
    requires Agrees(s, Pack(trees)) && ReachesLast(|s|, [], trees)
    ensures ExpandFrom(multiSends, safe, ms, s, 0)
         == Before(AllLeaves(multiSends, safe, ms, trees), ExpandFrom(multiSends, safe, ms, s, |Pack(trees)|))
    decreases trees, 3
  {
    forall tree | tree in trees ensures Packable(tree) {
      ValidIsPackable(multiSends, safe, ms, tree);
    }
    assert [] + Pack(trees) == Pack(trees);
    PackedAreAt([], trees, s, Pack(trees));
    ThenExpand(multiSends, safe, ms, trees, s, 0);
  }

  lemma {:induction false} TreesExpand(multiSends: MultiSends, safe: Address, ms: MultiSend, trees: seq<Tree>)
    requires forall tree :: tree in trees ==> ValidTree(multiSends, safe, ms, tree)
    ensures ExpandFrom(multiSends, safe, ms, Pack(trees), 0) == Expanded(AllLeaves(multiSends, safe, ms, trees))
    decreases trees, 4
  {
    if trees != [] {
      forall tree | tree in trees ensures Packable(tree) {
        ValidIsPackable(multiSends, safe, ms, tree);
      }
      LastIsLonger(trees);
    }
    PackedThen(multiSends, safe, ms, trees, Pack(trees));
    assert AllLeaves(multiSends, safe, ms, trees) + [] == AllLeaves(multiSends, safe, ms, trees);
  }

  // Expanding the packed encoding of a nest of batches, of any depth, returns its
  // leaves in the order that they run.
  lemma {:induction false} BatchRoundTrip(multiSends: MultiSends, safe: Address, root: Tree, kind: CallKind)
    requires root.Batch? && root.to in multiSends
    requires |CallOf(root).data| < UINT64
    requires forall child :: child in root.children ==> ValidTree(multiSends, safe, multiSends[root.to], child)
    ensures Expand(multiSends, safe, CallOf(root).(kind := kind))
         == Expanded(AllLeaves(multiSends, safe, multiSends[root.to], root.children))
  {
    BatchTransactions(Pack(root.children));
    TreesExpand(multiSends, safe, multiSends[root.to], root.children);
  }
}

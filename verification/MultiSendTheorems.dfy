// What the expander computes: how deep it recurses, what its calls are, where
// its reverts come from, and that it inverts the packing of nested batches.
module MultiSendTheorems {
  import opened EthTypes
  import opened SolAbi
  import opened Calls
  import opened MultiSendExpander
  import opened Preorder

  // ---- Depth -----------------------------------------------------------------

  function Max(a: nat, b: nat): nat {
    if a < b then b else a
  }

  // How many calls are in progress below the one for c, at most.
  function Depth(multiSends: MultiSends, safe: Address, c: Call): nat
    decreases Stripped(c.data), 0, 0
  {
    if RunsMultiSend(multiSends, c) then
      StrippedTransactions(c.data, Transactions(c));
      DepthFrom(multiSends, safe, multiSends[c.to], Transactions(c), 0)
    else 0
  }

  function DepthFrom(multiSends: MultiSends, safe: Address, ms: MultiSend, t: Bytes, offset: nat): nat
    decreases Stripped(t), 1, if offset <= |t| then |t| - offset else 0
  {
    if |t| - offset <= 32 || InvalidAt(ms, t, offset) then 0
    else
      StrippedRead(t, offset + 85, DataLength(t, offset));
      Max(1 + Depth(multiSends, safe, SubCall(ms, safe, t, offset)),
          DepthFrom(multiSends, safe, ms, t, Next(t, offset)))
  }

  // The data of each call of a call is 122 bytes shorter than the call's own,
  // leaving out the zeros that end it, although it may be longer with them.
  lemma SubCallIsSmaller(ms: MultiSend, safe: Address, c: Call, offset: nat)
    requires MULTI_SEND <= c.data && ReadBytes(c.data[4..], 0).Some?
    ensures Stripped(SubCall(ms, safe, Transactions(c), offset).data)
         <= if Stripped(c.data) <= 122 then 0 else Stripped(c.data) - 122
  {
    StrippedTransactions(c.data, Transactions(c));
    StrippedRead(Transactions(c), offset + 85, DataLength(Transactions(c), offset));
  }

  lemma {:induction false} DepthFromBound(multiSends: MultiSends, safe: Address, ms: MultiSend, t: Bytes, offset: nat)
    ensures DepthFrom(multiSends, safe, ms, t, offset) <= 1 + (if Stripped(t) <= 85 then 0 else (Stripped(t) - 85) / 122 + 1)
    decreases Stripped(t), 1, if offset <= |t| then |t| - offset else 0
  {
    if |t| - offset > 32 && !InvalidAt(ms, t, offset) {
      var sub := SubCall(ms, safe, t, offset);
      StrippedRead(t, offset + 85, DataLength(t, offset));
      DepthBound(multiSends, safe, sub);
      DepthFromBound(multiSends, safe, ms, t, Next(t, offset));
    }
  }

  // The recursion is at most one deeper than the length of the data over 122,
  // whatever the bytes are.
  lemma {:induction false} DepthBound(multiSends: MultiSends, safe: Address, c: Call)
    ensures Depth(multiSends, safe, c) <= Stripped(c.data) / 122 + 1
    ensures Stripped(c.data) == 0 ==> Depth(multiSends, safe, c) == 0
    decreases Stripped(c.data), 0, 0
  {
    if RunsMultiSend(multiSends, c) {
      SelectorIsStripped(c.data);
      StrippedTransactions(c.data, Transactions(c));
      DepthFromBound(multiSends, safe, multiSends[c.to], Transactions(c), 0);
    }
  }

  // ---- What the calls are -----------------------------------------------------

  predicate Irreducible(multiSends: MultiSends, safe: Address, c: Call) {
    Expand(multiSends, safe, c) == Expanded([c])
  }

  predicate AllBatched(calls: seq<Call>) {
    forall d :: d in calls ==> d.kind == Batched
  }

  predicate AllIrreducible(multiSends: MultiSends, safe: Address, calls: seq<Call>) {
    forall d :: d in calls ==> Irreducible(multiSends, safe, d)
  }

  lemma {:induction false} ExpandFromShape(multiSends: MultiSends, safe: Address, ms: MultiSend, t: Bytes, offset: nat)
    requires ExpandFrom(multiSends, safe, ms, t, offset).Expanded?
    ensures var calls := ExpandFrom(multiSends, safe, ms, t, offset).calls;
            AllBatched(calls) && AllIrreducible(multiSends, safe, calls)
    decreases Stripped(t), 1, if offset <= |t| then |t| - offset else 0
  {
    if |t| - offset > 32 {
      StrippedRead(t, offset + 85, DataLength(t, offset));
      ExpandShape(multiSends, safe, SubCall(ms, safe, t, offset));
      ExpandFromShape(multiSends, safe, ms, t, Next(t, offset));
    }
  }

  // A call expands to itself, or to the calls of a MultiSend, and expanding any of
  // them again changes nothing.
  lemma {:induction false} ExpandShape(multiSends: MultiSends, safe: Address, c: Call)
    requires Expand(multiSends, safe, c).Expanded?
    ensures var calls := Expand(multiSends, safe, c).calls;
            && AllIrreducible(multiSends, safe, calls)
            && (if RunsMultiSend(multiSends, c) then AllBatched(calls) else calls == [c])
    decreases Stripped(c.data), 0, 0
  {
    if RunsMultiSend(multiSends, c) {
      StrippedTransactions(c.data, Transactions(c));
      ExpandFromShape(multiSends, safe, multiSends[c.to], Transactions(c), 0);
    }
  }

  // ---- Where reverts come from ------------------------------------------------

  // The calls of the transactions from offset on, up to the first invalid one.
  function SubCalls(ms: MultiSend, safe: Address, t: Bytes, offset: nat): seq<Call>
    decreases if offset <= |t| then |t| - offset else 0
  {
    if |t| - offset <= 32 || InvalidAt(ms, t, offset) then []
    else [SubCall(ms, safe, t, offset)] + SubCalls(ms, safe, t, Next(t, offset))
  }

  predicate HasInvalid(ms: MultiSend, t: Bytes, offset: nat)
    decreases if offset <= |t| then |t| - offset else 0
  {
    |t| - offset > 32 && (InvalidAt(ms, t, offset) || HasInvalid(ms, t, Next(t, offset)))
  }

  function CallsOf(multiSends: MultiSends, safe: Address, c: Call): seq<Call>
    requires RunsMultiSend(multiSends, c)
  {
    SubCalls(multiSends[c.to], safe, Transactions(c), 0)
  }

  // Whether c makes d, by a path of indices into the calls of nested MultiSends.
  predicate Reaches(multiSends: MultiSends, safe: Address, c: Call, path: seq<nat>, d: Call)
    decreases |path|
  {
    if path == [] then c == d
    else
      && RunsMultiSend(multiSends, c)
      && path[0] < |CallsOf(multiSends, safe, c)|
      && Reaches(multiSends, safe, CallsOf(multiSends, safe, c)[path[0]], path[1..], d)
  }

  // Whether a call reverts for a reason of its own, rather than of one of its calls.
  predicate RevertsItself(multiSends: MultiSends, c: Call) {
    && c.to in multiSends
    && (|| !(MULTI_SEND <= c.data)
        || (c.operation == CALL && !multiSends[c.to].callOnly)
        || (RunsMultiSend(multiSends, c) && HasInvalid(multiSends[c.to], Transactions(c), 0)))
  }

  predicate AnyReverts(multiSends: MultiSends, safe: Address, calls: seq<Call>) {
    exists i :: 0 <= i < |calls| && Expand(multiSends, safe, calls[i]).Reverts?
  }

  lemma {:induction false} AnyRevertsFirst(multiSends: MultiSends, safe: Address, first: Call, rest: seq<Call>)
    ensures AnyReverts(multiSends, safe, [first] + rest)
       <==> Expand(multiSends, safe, first).Reverts? || AnyReverts(multiSends, safe, rest)
  {
    var calls := [first] + rest;
    assert calls[0] == first && forall i :: 0 <= i < |rest| ==> calls[i + 1] == rest[i];
    assert forall i :: 1 <= i < |calls| ==> calls[i] == rest[i - 1];
  }

  lemma {:induction false} ExpandFromCalls(multiSends: MultiSends, safe: Address, ms: MultiSend, t: Bytes, offset: nat)
    ensures var e, subs := ExpandFrom(multiSends, safe, ms, t, offset), SubCalls(ms, safe, t, offset);
            && (e.Reverts? <==> HasInvalid(ms, t, offset) || AnyReverts(multiSends, safe, subs))
            && (e.Expanded? ==> forall sub, d :: sub in subs && d in Expand(multiSends, safe, sub).calls ==> d in e.calls)
    decreases if offset <= |t| then |t| - offset else 0
  {
    if |t| - offset > 32 && !InvalidAt(ms, t, offset) {
      var first, next := SubCall(ms, safe, t, offset), Next(t, offset);
      ExpandFromCalls(multiSends, safe, ms, t, next);
      AnyRevertsFirst(multiSends, safe, first, SubCalls(ms, safe, t, next));
      assert forall sub :: sub in SubCalls(ms, safe, t, offset) <==> sub == first || sub in SubCalls(ms, safe, t, next);
    }
  }

  lemma {:induction false} ExpandCalls(multiSends: MultiSends, safe: Address, c: Call)
    requires RunsMultiSend(multiSends, c)
    ensures var e, subs := Expand(multiSends, safe, c), CallsOf(multiSends, safe, c);
            && (e.Reverts? <==> RevertsItself(multiSends, c) || AnyReverts(multiSends, safe, subs))
            && (e.Expanded? ==> forall sub, d :: sub in subs && d in Expand(multiSends, safe, sub).calls ==> d in e.calls)
  {
    ExpandFromCalls(multiSends, safe, multiSends[c.to], Transactions(c), 0);
  }

  lemma {:induction false} SubCallsAreSmaller(ms: MultiSend, safe: Address, t: Bytes, offset: nat, sub: Call)
    requires sub in SubCalls(ms, safe, t, offset)
    ensures Stripped(sub.data) <= Stripped(t)
    decreases if offset <= |t| then |t| - offset else 0
  {
    StrippedRead(t, offset + 85, DataLength(t, offset));
    if sub != SubCall(ms, safe, t, offset) {
      SubCallsAreSmaller(ms, safe, t, Next(t, offset), sub);
    }
  }

  // A revert anywhere in a nest reverts its root.
  lemma {:induction false} RevertReachesRoot(multiSends: MultiSends, safe: Address, c: Call, path: seq<nat>, d: Call)
    requires Reaches(multiSends, safe, c, path, d) && Expand(multiSends, safe, d).Reverts?
    ensures Expand(multiSends, safe, c).Reverts?
    decreases |path|
  {
    if path != [] {
      var sub := CallsOf(multiSends, safe, c)[path[0]];
      RevertReachesRoot(multiSends, safe, sub, path[1..], d);
      ExpandCalls(multiSends, safe, c);
    }
  }

  // A call that reverts reaches one that reverts for a reason of its own.
  lemma {:induction false} RevertHasReason(
    multiSends: MultiSends, safe: Address, c: Call) returns (path: seq<nat>, d: Call)
    requires Expand(multiSends, safe, c).Reverts?
    ensures Reaches(multiSends, safe, c, path, d) && RevertsItself(multiSends, d)
    decreases Stripped(c.data)
  {
    path, d := [], c;
    if !RevertsItself(multiSends, c) {
      var subs := CallsOf(multiSends, safe, c);
      ExpandCalls(multiSends, safe, c);
      var i: nat :| i < |subs| && Expand(multiSends, safe, subs[i]).Reverts?;
      var sub := subs[i];
      SubCallsAreSmaller(multiSends[c.to], safe, Transactions(c), 0, sub);
      StrippedTransactions(c.data, Transactions(c));
      path, d := RevertHasReason(multiSends, safe, sub);
      assert ([i] + path)[1..] == path;
      path := [i] + path;
    }
  }

  predicate ReachesRevert(multiSends: MultiSends, safe: Address, c: Call, path: seq<nat>, d: Call) {
    Reaches(multiSends, safe, c, path, d) && RevertsItself(multiSends, d)
  }

  // A call reverts exactly when it reaches a call that reverts for a reason of its
  // own: a call to a MultiSend other than to multiSend, a call of one that must be
  // delegate called, or one with a transaction that it can't run.
  lemma {:induction false} RevertsExactly(multiSends: MultiSends, safe: Address, c: Call)
    ensures Expand(multiSends, safe, c).Reverts? <==> exists path, d :: ReachesRevert(multiSends, safe, c, path, d)
  {
    if Expand(multiSends, safe, c).Reverts? {
      var path, d := RevertHasReason(multiSends, safe, c);
      assert ReachesRevert(multiSends, safe, c, path, d);
    } else {
      forall path, d | ReachesRevert(multiSends, safe, c, path, d) ensures false {
        if RunsMultiSend(multiSends, d) { ExpandCalls(multiSends, safe, d); }
        RevertReachesRoot(multiSends, safe, c, path, d);
      }
    }
  }

  // The Safe makes each call that is as deep as it goes in a nest that doesn't
  // revert.
  lemma {:induction false} LeafIsMade(multiSends: MultiSends, safe: Address, c: Call, path: seq<nat>, d: Call)
    requires Reaches(multiSends, safe, c, path, d) && Irreducible(multiSends, safe, d)
    requires Expand(multiSends, safe, c).Expanded?
    ensures d in Expand(multiSends, safe, c).calls
    decreases |path|
  {
    if path != [] {
      var sub := CallsOf(multiSends, safe, c)[path[0]];
      ExpandCalls(multiSends, safe, c);
      LeafIsMade(multiSends, safe, sub, path[1..], d);
    }
  }

  // ---- Exactly the leaves, in order ---------------------------------------------

  // Data that is no longer than n without the zeros that end it.
  predicate AllUpTo(calls: seq<Call>, n: nat) {
    forall d :: d in calls ==> Stripped(d.data) <= n
  }

  lemma {:induction false} SubCallsAllSmaller(ms: MultiSend, safe: Address, t: Bytes, offset: nat)
    ensures AllUpTo(SubCalls(ms, safe, t, offset), Stripped(t))
  {
    forall sub | sub in SubCalls(ms, safe, t, offset) ensures Stripped(sub.data) <= Stripped(t) {
      SubCallsAreSmaller(ms, safe, t, offset, sub);
    }
  }

  // The paths to the calls that c makes that make no more calls, in the order that they
  // start.
  function LeafPaths(multiSends: MultiSends, safe: Address, c: Call): seq<seq<nat>>
    decreases Stripped(c.data), 0, 0
  {
    if !RunsMultiSend(multiSends, c) then [[]]
    else
      StrippedTransactions(c.data, Transactions(c));
      SubCallsAllSmaller(multiSends[c.to], safe, Transactions(c), 0);
      PathsThrough(multiSends, safe, CallsOf(multiSends, safe, c), 0, Stripped(Transactions(c)))
  }

  // Those through the calls from one on.
  function PathsThrough(
    multiSends: MultiSends, safe: Address, subs: seq<Call>, first: nat, ghost bound: nat): seq<seq<nat>>
    requires first <= |subs| && AllUpTo(subs, bound)
    decreases bound, 1, |subs| - first
  {
    if first == |subs| then []
    else
      Under(first, LeafPaths(multiSends, safe, subs[first])) + PathsThrough(multiSends, safe, subs, first + 1, bound)
  }

  // Each path leads to the call at its index.
  predicate Lead(multiSends: MultiSends, safe: Address, c: Call, paths: seq<seq<nat>>, calls: seq<Call>) {
    |paths| == |calls| && forall i :: 0 <= i < |paths| ==> Reaches(multiSends, safe, c, paths[i], calls[i])
  }

  predicate NoneReverts(multiSends: MultiSends, safe: Address, subs: seq<Call>) {
    forall sub :: sub in subs ==> Expand(multiSends, safe, sub).Expanded?
  }

  // What calls that don't revert expand to, one after the other.
  function AllExpanded(multiSends: MultiSends, safe: Address, subs: seq<Call>): seq<Call> {
    if subs == [] then []
    else
      (match Expand(multiSends, safe, subs[0]) case Reverts => [] case Expanded(calls) => calls)
      + AllExpanded(multiSends, safe, subs[1..])
  }

  // The calls of transactions that don't revert are those of each call, in order.
  lemma {:induction false} ExpandsInOrder(multiSends: MultiSends, safe: Address, ms: MultiSend, t: Bytes, offset: nat)
    requires ExpandFrom(multiSends, safe, ms, t, offset).Expanded?
    ensures ExpandFrom(multiSends, safe, ms, t, offset).calls
         == AllExpanded(multiSends, safe, SubCalls(ms, safe, t, offset))
    ensures NoneReverts(multiSends, safe, SubCalls(ms, safe, t, offset))
    decreases if offset <= |t| then |t| - offset else 0
  {
    if |t| - offset > 32 {
      var first, rest := SubCall(ms, safe, t, offset), SubCalls(ms, safe, t, Next(t, offset));
      ExpandsInOrder(multiSends, safe, ms, t, Next(t, offset));
      assert ([first] + rest)[1..] == rest;
    }
  }

  lemma {:induction false} LeafPathsLead(multiSends: MultiSends, safe: Address, c: Call)
    requires Expand(multiSends, safe, c).Expanded?
    ensures Lead(multiSends, safe, c, LeafPaths(multiSends, safe, c), Expand(multiSends, safe, c).calls)
    decreases Stripped(c.data), 0, 0
  {
    if RunsMultiSend(multiSends, c) {
      var t, subs := Transactions(c), CallsOf(multiSends, safe, c);
      StrippedTransactions(c.data, t);
      SubCallsAllSmaller(multiSends[c.to], safe, t, 0);
      ExpandsInOrder(multiSends, safe, multiSends[c.to], t, 0);
      PathsThroughLead(multiSends, safe, c, subs, 0, Stripped(t));
      assert subs[0..] == subs;
    }
  }

  lemma LeadConcat(
    multiSends: MultiSends, safe: Address, c: Call, paths: seq<seq<nat>>, calls: seq<Call>, later: seq<seq<nat>>,
    laterCalls: seq<Call>)
    requires Lead(multiSends, safe, c, paths, calls) && Lead(multiSends, safe, c, later, laterCalls)
    ensures Lead(multiSends, safe, c, paths + later, calls + laterCalls)
  {
  }

  lemma {:induction false} PathsThroughLead(
    multiSends: MultiSends, safe: Address, c: Call, subs: seq<Call>, first: nat, bound: nat)
    requires RunsMultiSend(multiSends, c) && subs == CallsOf(multiSends, safe, c) && first <= |subs|
    requires AllUpTo(subs, bound) && NoneReverts(multiSends, safe, subs)
    ensures Lead(multiSends, safe, c, PathsThrough(multiSends, safe, subs, first, bound),
                 AllExpanded(multiSends, safe, subs[first..]))
    decreases bound, 1, |subs| - first
  {
    if first < |subs| {
      var sub := subs[first];
      LeafPathsLead(multiSends, safe, sub);
      PathsThroughLead(multiSends, safe, c, subs, first + 1, bound);
      var paths, calls := LeafPaths(multiSends, safe, sub), Expand(multiSends, safe, sub).calls;
      LeadConcat(multiSends, safe, c, Under(first, paths), calls, PathsThrough(multiSends, safe, subs, first + 1, bound),
                 AllExpanded(multiSends, safe, subs[first + 1..]));
    }
  }

  lemma {:induction false} LeafPathsInOrder(multiSends: MultiSends, safe: Address, c: Call)
    ensures InStartOrder(LeafPaths(multiSends, safe, c))
    decreases Stripped(c.data), 0, 0
  {
    if RunsMultiSend(multiSends, c) {
      StrippedTransactions(c.data, Transactions(c));
      SubCallsAllSmaller(multiSends[c.to], safe, Transactions(c), 0);
      PathsThroughInOrder(multiSends, safe, CallsOf(multiSends, safe, c), 0, Stripped(Transactions(c)));
    }
  }

  lemma {:induction false} PathsThroughInOrder(
    multiSends: MultiSends, safe: Address, subs: seq<Call>, first: nat, bound: nat)
    requires first <= |subs| && AllUpTo(subs, bound)
    ensures var paths := PathsThrough(multiSends, safe, subs, first, bound);
            InStartOrder(paths) && forall p :: p in paths ==> p != [] && first <= p[0]
    decreases bound, 1, |subs| - first
  {
    if first < |subs| {
      var paths := LeafPaths(multiSends, safe, subs[first]);
      LeafPathsInOrder(multiSends, safe, subs[first]);
      PathsThroughInOrder(multiSends, safe, subs, first + 1, bound);
    }
  }

  // The paths through a call are among those through the calls from an earlier one on.
  lemma {:induction false} ThroughLater(
    multiSends: MultiSends, safe: Address, subs: seq<Call>, first: nat, i: nat, bound: nat, path: seq<nat>)
    requires first <= i < |subs| && AllUpTo(subs, bound)
    requires path in Under(i, LeafPaths(multiSends, safe, subs[i]))
    ensures path in PathsThrough(multiSends, safe, subs, first, bound)
    decreases i - first
  {
    if first < i {
      ThroughLater(multiSends, safe, subs, first + 1, i, bound, path);
    }
  }

  lemma {:induction false} LeafPathIsListed(multiSends: MultiSends, safe: Address, c: Call, path: seq<nat>, d: Call)
    requires Reaches(multiSends, safe, c, path, d) && !RunsMultiSend(multiSends, d)
    ensures path in LeafPaths(multiSends, safe, c)
    decreases |path|
  {
    if path != [] {
      var t, subs := Transactions(c), CallsOf(multiSends, safe, c);
      LeafPathIsListed(multiSends, safe, subs[path[0]], path[1..], d);
      UnderHas(path[0], LeafPaths(multiSends, safe, subs[path[0]]), path);
      StrippedTransactions(c.data, t);
      SubCallsAllSmaller(multiSends[c.to], safe, t, 0);
      ThroughLater(multiSends, safe, subs, 0, path[0], Stripped(t), path);
    }
  }

  lemma {:induction false} ExpandedIsSmaller(multiSends: MultiSends, safe: Address, c: Call)
    requires Expand(multiSends, safe, c).Expanded?
    ensures AllUpTo(Expand(multiSends, safe, c).calls, Stripped(c.data))
    ensures RunsMultiSend(multiSends, c) ==> AllUpTo(Expand(multiSends, safe, c).calls, Stripped(Transactions(c)))
    decreases Stripped(c.data), 0, 0
  {
    if RunsMultiSend(multiSends, c) {
      StrippedTransactions(c.data, Transactions(c));
      ExpandedFromIsSmaller(multiSends, safe, multiSends[c.to], Transactions(c), 0);
    }
  }

  lemma {:induction false} ExpandedFromIsSmaller(
    multiSends: MultiSends, safe: Address, ms: MultiSend, t: Bytes, offset: nat)
    requires ExpandFrom(multiSends, safe, ms, t, offset).Expanded?
    ensures AllUpTo(ExpandFrom(multiSends, safe, ms, t, offset).calls, Stripped(t))
    decreases Stripped(t), 1, if offset <= |t| then |t| - offset else 0
  {
    if |t| - offset > 32 {
      StrippedRead(t, offset + 85, DataLength(t, offset));
      ExpandedIsSmaller(multiSends, safe, SubCall(ms, safe, t, offset));
      ExpandedFromIsSmaller(multiSends, safe, ms, t, Next(t, offset));
    }
  }

  // A call that expands to itself isn't a MultiSend that makes calls.
  lemma IrreducibleIsLeaf(multiSends: MultiSends, safe: Address, d: Call)
    requires Irreducible(multiSends, safe, d)
    ensures !RunsMultiSend(multiSends, d)
  {
    if RunsMultiSend(multiSends, d) {
      ExpandedIsSmaller(multiSends, safe, d);
      StrippedTransactions(d.data, Transactions(d));
    }
  }

  // On any bytes that don't revert, the calls are exactly the ones that paths into the
  // nested MultiSends lead to and that make no more calls, each once, in the order that
  // they start.
  lemma ExpandsExactly(multiSends: MultiSends, safe: Address, c: Call) returns (paths: seq<seq<nat>>)
    requires Expand(multiSends, safe, c).Expanded?
    ensures Lead(multiSends, safe, c, paths, Expand(multiSends, safe, c).calls) && InStartOrder(paths)
    ensures forall path, d :: Reaches(multiSends, safe, c, path, d) && Irreducible(multiSends, safe, d) ==> path in paths
  {
    paths := LeafPaths(multiSends, safe, c);
    LeafPathsLead(multiSends, safe, c);
    LeafPathsInOrder(multiSends, safe, c);
    forall path, d | Reaches(multiSends, safe, c, path, d) && Irreducible(multiSends, safe, d) ensures path in paths {
      IrreducibleIsLeaf(multiSends, safe, d);
      LeafPathIsListed(multiSends, safe, c, path, d);
    }
  }
}

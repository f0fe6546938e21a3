// The search for the last block before a time: internal/ethrpc/search.go, and its
// use for the block before a proposal in internal/safenet/safenet.go.
module SearchBlock {
  import opened Wrappers
  import opened EthTypes

  datatype Block = Block(number: nat, time: int)

  // The number of bits of n.
  function BitLength(n: nat): (l: nat) {
    if n == 0 then 0 else 1 + BitLength(n / 2)
  }

  function Pow2(n: nat): (p: nat)
    ensures p > 0
  {
    if n == 0 then 1 else 2 * Pow2(n - 1)
  }

  lemma {:induction false} BitLengthBound(n: nat)
    ensures n < Pow2(BitLength(n))
    ensures n > 0 ==> Pow2(BitLength(n) - 1) <= n
  {
    if n > 0 {
      BitLengthBound(n / 2);
    }
  }

  // Timestamps that never decrease.
  predicate Nondecreasing(times: seq<int>) {
    forall i, j :: 0 <= i <= j < |times| ==> times[i] <= times[j]
  }

  // Block n is before t, and the next one isn't.
  predicate Crosses(times: seq<int>, t: int, n: nat) {
    n + 1 < |times| && times[n] < t <= times[n + 1]
  }

  predicate IsLastBefore(times: seq<int>, t: int, n: nat) {
    n < |times| && times[n] < t && forall k :: n < k < |times| ==> times[k] >= t
  }

  lemma CrossingIsLast(times: seq<int>, t: int, n: nat)
    requires Nondecreasing(times) && Crosses(times, t, n)
    ensures IsLastBefore(times, t, n)
    ensures forall m: nat :: IsLastBefore(times, t, m) ==> m == n
  {
  }

  // A node that serves a chain of |times| blocks, where up says which of the
  // requests that it gets it answers, and the number of requests so far.
  class Node {
    const times: seq<int>
    const up: nat -> bool
    var requests: nat

    constructor (times: seq<int>, up: nat -> bool)
      ensures this.times == times && this.up == up && requests == 0
    {
      this.times := times;
      this.up := up;
      requests := 0;
    }

    method BlockNumber() returns (latest: Result<nat>)
      requires times != []
      modifies this
      ensures requests == old(requests) + 1
      ensures latest == if up(old(requests)) then Ok(|times| - 1) else Err
    {
      latest := if up(requests) then Ok(|times| - 1) else Err;
      requests := requests + 1;
    }

    method GetBlock(n: nat) returns (block: Result<Block>)
      modifies this
      ensures requests == old(requests) + 1
      ensures block == if up(old(requests)) && n < |times| then Ok(Block(n, times[n])) else Err
    {
      block := if up(requests) && n < |times| then Ok(Block(n, times[n])) else Err;
      requests := requests + 1;
    }
  }

  // The estimate of the block at t, whatever it is: the search must not depend on it.
  type Estimator = (Block, Block, int) -> Option<nat>

  // Whether the node answered the n requests from request first on.
  predicate Answered(up: nat -> bool, first: nat, n: nat) {
    forall i :: first <= i < first + n ==> up(i)
  }

  // The gap between lo and hi after a number of probes: the first budget of them
  // close it by a block at least, and the others halve it.
  predicate GapBound(gap: nat, probes: nat, latest: nat) {
    var budget := BitLength(latest);
    && probes <= 2 * budget
    && (if probes <= budget then gap + probes <= latest || gap <= 1 else gap <= Pow2(2 * budget - probes))
  }

  // The blocks that the search starts from: the genesis block, if it is before t,
  // and the latest block, if it isn't.
  method Bounds(node: Node, t: int) returns (bounds: Result<(Block, Block)>)
    requires node.times != []
    modifies node
    ensures node.requests <= old(node.requests) + 3
    ensures bounds.Ok? ==> node.requests == old(node.requests) + 3
    ensures var first, latest := node.times[0], |node.times| - 1;
            bounds.Ok? ==>
              first < t <= node.times[latest] && bounds.value == (Block(0, first), Block(latest, node.times[latest]))
    ensures Answered(node.up, old(node.requests), 3) ==> (bounds.Ok? <==> node.times[0] < t <= node.times[|node.times| - 1])
  {
    assert Answered(node.up, node.requests, 3) ==>
      node.up(node.requests) && node.up(node.requests + 1) && node.up(node.requests + 2);
    var latest := node.BlockNumber();
    if latest.Err? { return Err; }
    var hi := node.GetBlock(latest.value);
    if hi.Err? || hi.value.time < t { return Err; }
    var lo := node.GetBlock(0);
    if lo.Err? || lo.value.time >= t { return Err; }
    return Ok((lo.value, hi.value));
  }

  // The block to probe next: the estimate from the last two blocks fetched, or from
  // lo and hi if that is outside them, or the middle once the search must bisect,
  // but always between lo and hi.
  method NextProbe(lo: Block, hi: Block, prev: Block, last: Block, t: int, bisect: bool, estimate: Estimator)
    returns (at: nat)
    requires lo.number + 1 < hi.number
    ensures lo.number < at < hi.number
    ensures bisect ==> at == lo.number + (hi.number - lo.number) / 2
  {
    var n := estimate(prev, last, t);
    if n.None? || n.value < lo.number || n.value > hi.number {
      n := estimate(lo, hi, t);
    }
    at := if n.None? then 0 else n.value;
    if bisect {
      at := lo.number + (hi.number - lo.number) / 2;
    }
    at := if at < lo.number + 1 then lo.number + 1 else at;
    at := if at > hi.number - 1 then hi.number - 1 else at;
  }

  // SearchBlock, with the number of probes it makes after the three requests that
  // it starts with.
  method Search(node: Node, t: int, estimate: Estimator) returns (found: Result<nat>, probes: nat)
    requires node.times != []
    modifies node
    ensures found.Ok? ==> Crosses(node.times, t, found.value)
    ensures probes <= 2 * BitLength(|node.times| - 1)
    ensures node.requests <= old(node.requests) + 3 + probes
    ensures Answered(node.up, old(node.requests), 3 + probes) ==>
      (found.Ok? <==> node.times[0] < t <= node.times[|node.times| - 1])
  {
    var times := node.times;
    probes := 0;
    var bounds := Bounds(node, t);
    if bounds.Err? { return Err, 0; }
    var (lo, hi) := bounds.value;

    var prev, last := lo, hi;
    var budget := BitLength(hi.number - lo.number);
    BitLengthBound(hi.number);
    while hi.number - lo.number > 1
      invariant 0 <= lo.number < hi.number < |times|
      invariant lo.time == times[lo.number] < t <= times[hi.number] == hi.time
      invariant node.requests == old(node.requests) + 3 + probes
      invariant GapBound(hi.number - lo.number, probes, |times| - 1)
      decreases hi.number - lo.number
    {
      var at := NextProbe(lo, hi, prev, last, t, probes >= budget, estimate);
      ghost var gap := hi.number - lo.number;

      var fetched := node.GetBlock(at);
      if fetched.Err? {
        assert !node.up(old(node.requests) + 3 + probes);
        return Err, probes + 1;
      }
      var b := fetched.value;
      if b.time < t {
        lo := b;
      } else {
        hi := b;
      }
      prev, last := last, b;
      GapShrinks(gap, hi.number - lo.number, probes, |times| - 1);
      probes := probes + 1;
    }
    found := Ok(lo.number);
  }

  lemma {:induction false} GapShrinks(gap: nat, next: nat, probes: nat, latest: nat)
    requires GapBound(gap, probes, latest) && 1 < gap <= latest && 0 < next < gap
    requires probes >= BitLength(latest) ==> next <= gap - gap / 2
    ensures GapBound(next, probes + 1, latest)
  {
    var budget := BitLength(latest);
    BitLengthBound(latest);
    if probes >= budget {
      assert gap <= Pow2(2 * budget - probes) == 2 * Pow2(2 * budget - probes - 1);
    }
  }

  // parentBlock: the proposal block's parent if it is before the proposal's time,
  // and what the search finds otherwise. The number of the parent of block 0 wraps.
  method ParentBlock(node: Node, proposal: nat, t: int, estimate: Estimator) returns (found: Result<nat>)
    requires node.times != [] && |node.times| < UINT64
    modifies node
    ensures var times, first, parent := node.times, old(node.requests), (proposal + UINT64 - 1) % UINT64;
            if !node.up(first) || parent >= |times| then found.Err?
            else if times[parent] < t then found == Ok(parent)
            else
              && (found.Ok? ==> Crosses(times, t, found.value))
              && (Answered(node.up, first + 1, 3 + 2 * BitLength(|times| - 1)) ==>
                    (found.Ok? <==> times[0] < t <= times[|times| - 1]))
    ensures found.Ok? && proposal < |node.times| && node.times[proposal] == t ==>
      Crosses(node.times, t, found.value) && (Nondecreasing(node.times) ==> IsLastBefore(node.times, t, found.value))
  {
    var parent := node.GetBlock((proposal + UINT64 - 1) % UINT64);
    if parent.Err? { return Err; }
    if parent.value.time < t {
      return Ok(parent.value.number);
    }
    var probes;
    found, probes := Search(node, t, estimate);
  }

  // On a chain whose timestamps never decrease, the shortcut of parentBlock and the
  // search find the same block, the last one before the proposal's time.
  lemma ShortcutFindsTheSame(times: seq<int>, proposal: nat, searched: nat)
    requires Nondecreasing(times) && 0 < proposal < |times|
    requires times[proposal - 1] < times[proposal]
    requires Crosses(times, times[proposal], searched)
    ensures searched == proposal - 1 && IsLastBefore(times, times[proposal], searched)
  {
    CrossingIsLast(times, times[proposal], searched);
    CrossingIsLast(times, times[proposal], proposal - 1);
  }
}

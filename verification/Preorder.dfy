// Paths of child indices into a tree, in the order that its nodes are visited.
module Preorder {
  // A node before the ones below it, and its children in order.
  predicate StartsBefore(p: seq<nat>, q: seq<nat>) {
    q != [] && (p == [] || p[0] < q[0] || (p[0] == q[0] && StartsBefore(p[1..], q[1..])))
  }

  predicate InStartOrder(paths: seq<seq<nat>>) {
    forall i, j :: 0 <= i < j < |paths| ==> StartsBefore(paths[i], paths[j])
  }

  // Paths below a node, from the parent that it is a child of.
  function Under(child: nat, paths: seq<seq<nat>>): (under: seq<seq<nat>>)
    ensures |under| == |paths|
  {
    seq(|paths|, i requires 0 <= i < |paths| => [child] + paths[i])
  }

  lemma UnderHas(child: nat, paths: seq<seq<nat>>, path: seq<nat>)
    requires path != [] && path[0] == child && path[1..] in paths
    ensures path in Under(child, paths)
  {
    var i :| 0 <= i < |paths| && paths[i] == path[1..];
    assert Under(child, paths)[i] == path;
  }
}

/**
  Dotted version vectors (data/dvv.go).  A clock is the dot of one event, a replica
  name and a counter, and the causal context the event was issued in.
 */
module Clocks {
  type NodeName = string

  type Context = map<NodeName, nat>

  datatype Dot = Dot(node: NodeName, count: nat)

  function Max(a: nat, b: nat): nat { if a < b then b else a }

  datatype DVV = DVV(dot: Dot, vv: Context) {

    /** The dot of this clock is covered by the context of the other one. */
    predicate HappenedBefore(other: DVV) {
      dot.node in other.vv && dot.count <= other.vv[dot.node]
    }

    /** The largest counter of `node` that this clock mentions, 0 when there is none. */
    function MaxDot(node: NodeName): nat {
      var fromDot := if dot.node == node then dot.count else 0;
      if node in vv then Max(fromDot, vv[node]) else fromDot
    }

    /** The names `Replicas` lists: a dot at the empty name is listed only through the context. */
    function ReplicaSet(): set<NodeName> {
      vv.Keys + (if dot.node == "" then {} else {dot.node})
    }

    /** Every replica of the clock, each once, in the order of the map iteration. */
    method Replicas() returns (replicas: seq<NodeName>)
      ensures forall n :: n in replicas <==> n in ReplicaSet()
      ensures forall i, j :: 0 <= i < j < |replicas| ==> replicas[i] != replicas[j]
    {
      replicas := [];
      var dotNode := dot.node;
      var todo := vv.Keys;
      while todo != {}
        invariant todo <= vv.Keys
        invariant forall n :: n in replicas <==> n in vv.Keys - todo
        invariant forall i, j :: 0 <= i < j < |replicas| ==> replicas[i] != replicas[j]
        invariant dotNode == if dot.node in vv.Keys - todo then "" else dot.node
        decreases todo
      {
        var n :| n in todo;
        todo := todo - {n};
        replicas := replicas + [n];
        if n == dotNode {
          dotNode := "";
        }
      }
      if |dotNode| > 0 {
        replicas := replicas + [dotNode];
      }
    }

    /** Entry by entry comparison; agrees with equality of clocks. */
    method Equals(other: DVV) returns (same: bool)
      ensures same <==> this == other
    {
      if dot.node != other.dot.node || dot.count != other.dot.count {
        return false;
      }
      if |vv| != |other.vv| {
        return false;
      }
      var todo := vv.Keys;
      while todo != {}
        invariant todo <= vv.Keys
        invariant forall n :: n in vv.Keys - todo ==> n in other.vv && vv[n] == other.vv[n]
        decreases todo
      {
        var n :| n in todo;
        todo := todo - {n};
        if n !in other.vv {
          return false;
        }
        if vv[n] != other.vv[n] {
          return false;
        }
      }
      SubsetOfSameSize(vv.Keys, other.vv.Keys);
      assert vv == other.vv;
      return true;
    }
  }

  lemma SubsetOfSameSize<T>(a: set<T>, b: set<T>)
    requires a <= b && |a| == |b|
    ensures a == b
  {
    assert |b - a| == |b| - |a|;
  }

  /** The clock gives the node this counter, in its dot or in its context. */
  predicate Mentions(clock: DVV, node: NodeName, count: int) {
    (clock.dot.node == node && clock.dot.count == count) || (node in clock.vv && clock.vv[node] == count)
  }

  lemma MentionedIsBelow(clock: DVV, node: NodeName)
    ensures forall k: nat :: Mentions(clock, node, k) ==> k <= clock.MaxDot(node)
    ensures Mentions(clock, node, clock.MaxDot(node)) || clock.MaxDot(node) == 0
    ensures node in clock.ReplicaSet() ==> Mentions(clock, node, clock.MaxDot(node))
  {
  }

  /** Pointwise order on contexts. */
  ghost predicate ContextAtMost(a: Context, b: Context) {
    forall n :: n in a ==> n in b && a[n] <= b[n]
  }
}

/** The data-placement map: which node holds the range of objects an index falls in. */
module Placement {
  import opened Arithmetic

  datatype Node = Node(startOid: nat, range: nat, ip: nat) {
    /** The lookup's test is inclusive at both ends. */
    predicate Matches(index: nat) {
      startOid <= index <= startOid + range
    }
  }

  datatype Lookup = Found(ip: nat) | NoNode

  /** Some node of the map matches every object of a volume. */
  ghost predicate Covers(nodes: seq<Node>, nbObjects: nat) {
    forall index: nat :: index < nbObjects ==> HasNode(nodes, index)
  }

  ghost predicate HasNode(nodes: seq<Node>, index: nat) {
    exists n :: 0 <= n < |nodes| && nodes[n].Matches(index)
  }

  /** `get_dpnode_ip_from_index`: the first matching node, an error if there is none. */
  method NodeOfIndex(nodes: seq<Node>, index: nat) returns (r: Lookup, ghost at: nat)
    ensures r.Found? <==> HasNode(nodes, index)
    ensures r.Found? ==>
      && at < |nodes| && r.ip == nodes[at].ip
      && nodes[at].startOid <= index <= nodes[at].startOid + nodes[at].range
      && forall n :: 0 <= n < at ==> index < nodes[n].startOid || index > nodes[n].startOid + nodes[n].range
    ensures r.NoNode? ==>
      forall n :: 0 <= n < |nodes| ==> index < nodes[n].startOid || index > nodes[n].startOid + nodes[n].range
  {
    at := 0;
    for loop := 0 to |nodes|
      invariant forall n :: 0 <= n < loop ==> !nodes[n].Matches(index)
    {
      if nodes[loop].Matches(index) {
        return Found(nodes[loop].ip), loop;
      }
    }
    return NoNode, 0;
  }

  /** Where the generator lets node n start. */
  function StartOf(n: nat, total: nat, count: nat): nat
    requires count > 0
  {
    MulSign(n, total);
    n * total / count
  }

  /** It is the node's share of the objects before it, rounded down. */
  lemma StartOfIs(n: nat, total: nat, count: nat)
    requires count > 0
    ensures var s := StartOf(n, total, count); s * count <= n * total < s * count + count
  {
    MulSign(n, total);
    DivMod(n * total, count);
  }

  /** The generated map over `total` objects and `count` nodes. */
  ghost predicate EvenMap(nodes: seq<Node>, total: nat, count: nat)
    requires count > 0
  {
    |nodes| == count
    && forall n :: 0 <= n < count ==>
      nodes[n].startOid == StartOf(n, total, count) && nodes[n].range == total / count
  }

  /** `mds_generate_test_data`, with its 1000 objects and 2 nodes as parameters. */
  method GenerateMap(total: nat, count: nat, ip: nat) returns (nodes: seq<Node>)
    requires count > 0
    ensures EvenMap(nodes, total, count)
    ensures forall n :: 0 <= n < count ==> nodes[n].ip == ip
  {
    hide StartOf;
    nodes := [];
    var loop := 0;
    while loop < count
      invariant |nodes| == loop <= count
      invariant forall n :: 0 <= n < loop ==>
        nodes[n].startOid == StartOf(n, total, count) && nodes[n].range == total / count && nodes[n].ip == ip
    {
      nodes := nodes + [Node(StartOf(loop, total, count), total / count, ip)];
      loop := loop + 1;
    }
  }

  /** Consecutive nodes start at least the range apart, and at most one more than that. */
  lemma StartStep(n: nat, total: nat, count: nat)
    requires count > 0
    ensures var s, t := StartOf(n, total, count), StartOf(n + 1, total, count);
            s + total / count <= t <= s + total / count + 1
  {
    MulSign(n, total);
    assert (n + 1) * total == n * total + total;
    QuotientOfSum(n * total, total, count);
  }

  lemma StartOfZero(total: nat, count: nat)
    requires count > 0
    ensures StartOf(0, total, count) == 0
  {
  }

  /** The last node that starts at or below an index matches it. */
  lemma {:induction false} SomeNodeMatches(nodes: seq<Node>, total: nat, count: nat, index: nat, n: nat)
    requires count > 0 && EvenMap(nodes, total, count) && index < total
    requires n <= count && index < StartOf(n, total, count)
    ensures HasNode(nodes, index)
  {
    if n == 0 {
      StartOfZero(total, count);
    } else {
      StartStep(n - 1, total, count);
      hide StartOf;
      if index >= StartOf(n - 1, total, count) {
        assert nodes[n - 1].Matches(index);
      } else {
        SomeNodeMatches(nodes, total, count, index, n - 1);
      }
    }
  }

  /** Every object has a node, even when the number of nodes does not divide that of objects. */
  lemma EvenMapCovers(nodes: seq<Node>, total: nat, count: nat)
    requires count > 0 && EvenMap(nodes, total, count)
    ensures Covers(nodes, total)
  {
    forall index: nat | index < total ensures HasNode(nodes, index) {
      QuotientAtLeast(count * total, count, total);
      SomeNodeMatches(nodes, total, count, index, count);
    }
  }

  lemma {:induction false} StartsApart(total: nat, count: nat, n: nat, m: nat)
    requires count > 0 && n <= m
    ensures StartOf(n, total, count) + (m - n) * (total / count) <= StartOf(m, total, count)
  {
    hide StartOf;
    if n < m {
      StartsApart(total, count, n, m - 1);
      StartStep(m - 1, total, count);
      var r := total / count;
      assert (m - n) * r == (m - 1 - n) * r + r;
    }
  }

  /** Once every node has a non-empty range, at most two of them, neighbours, match one index. */
  lemma AtMostTwoMatch(nodes: seq<Node>, total: nat, count: nat, index: nat, n: nat, m: nat)
    requires count > 0 && EvenMap(nodes, total, count) && total / count > 0
    requires n < m < count && nodes[n].Matches(index) && nodes[m].Matches(index)
    ensures m == n + 1
  {
    StartsApart(total, count, n, m);
    hide StartOf;
    var r := total / count;
    FarApart(m - n, r);
  }

  lemma FarApart(k: nat, r: nat)
    requires k > 0 && r > 0
    ensures k * r <= r ==> k == 1
  {
    if k > 1 {
      assert k * r == (k - 2) * r + 2 * r;
      MulSign(k - 2, r);
    }
  }
}

/** The intrusive circular list: link fields of the nodes themselves, with a head node in every ring. */
module Lists {

  class ListHead {
    var next: ListHead?
    var prev: ListHead?
  }

  /** Once around the ring, from the head back to the head. */
  function Round(head: ListHead, nodes: seq<ListHead>): (r: seq<ListHead>)
    ensures |r| == |nodes| + 2
  {
    [head] + nodes + [head]
  }

  ghost predicate Distinct(nodes: seq<ListHead>) {
    forall i, j :: 0 <= i < j < |nodes| ==> nodes[i] != nodes[j]
  }

  /** `next` and `prev` are inverse all the way around, and the nodes are the head's list, in order. */
  ghost predicate Ring(head: ListHead, nodes: seq<ListHead>)
    reads head, nodes
  {
    && head !in nodes && Distinct(nodes)
    && var r := Round(head, nodes);
       forall i, j :: 0 <= i && j == i + 1 < |r| ==> r[i].next == r[j] && r[j].prev == r[i]
  }

  /** Two rings of one head, walked side by side for k steps. */
  lemma {:induction false} RingsAgree(head: ListHead, a: seq<ListHead>, b: seq<ListHead>, k: nat)
    requires Ring(head, a) && Ring(head, b) && |a| <= |b| && k <= |a|
    ensures a[..k] == b[..k]
    ensures k == |a| ==> a == b
  {
    var r, q := Round(head, a), Round(head, b);
    if k > 0 {
      RingsAgree(head, a, b, k - 1);
      if k > 1 {
        assert r[k - 1] == a[k - 2] == a[..k - 1][k - 2] == b[..k - 1][k - 2] == q[k - 1];
      }
      assert r[k - 1].next == r[k] && q[k - 1].next == q[k];
      assert a[..k] == a[..k - 1] + [a[k - 1]];
      assert b[..k] == b[..k - 1] + [b[k - 1]];
    }
    if k == |a| {
      if k > 0 {
        assert r[k] == a[k - 1] == a[..k][k - 1] == b[..k][k - 1] == q[k];
      }
      assert r[k].next == r[k + 1] == head && q[k].next == q[k + 1];
      assert q[k + 1] == head;
      assert forall x :: x in q[k + 1..|b| + 1] ==> x in b;
    }
  }

  /** The links determine the list: a head has at most one sequence of nodes. */
  lemma RingUnique(head: ListHead, a: seq<ListHead>, b: seq<ListHead>)
    requires Ring(head, a) && Ring(head, b)
    ensures a == b
  {
    if |a| <= |b| {
      RingsAgree(head, a, b, |a|);
    } else {
      RingsAgree(head, b, a, |b|);
    }
  }

  method InitListHead(list: ListHead)
    modifies list
    ensures Ring(list, [])
  {
    list.next := list;
    list.prev := list;
  }

  method ListEmpty(head: ListHead, ghost nodes: seq<ListHead>) returns (empty: bool)
    requires Ring(head, nodes)
    ensures empty <==> nodes == []
  {
    empty := head.next == head;
    assert Round(head, nodes)[0].next == Round(head, nodes)[1];
  }

  /** `__list_add` */
  method LinkBetween(node: ListHead, prev: ListHead, next: ListHead)
    requires node != prev && node != next
    modifies node, prev, next
    ensures node.next == next && node.prev == prev && prev.next == node && next.prev == node
    ensures prev != next ==> prev.prev == old(prev.prev) && next.next == old(next.next)
  {
    next.prev := node;
    node.next := next;
    node.prev := prev;
    prev.next := node;
  }

  /** The links of a ring are all in place but for the step from position k of the round to the next. */
  ghost predicate LinkedExcept(r: seq<ListHead>, lo: nat, hi: nat)
    reads r
  {
    && (forall i, j :: 0 <= i && j == i + 1 < |r| && !(lo <= i < hi) ==> r[i].next == r[j] && r[j].prev == r[i])
  }

  /** A node linked in between two neighbours of a ring is inserted there in the sequence. */
  lemma Inserted(head: ListHead, nodes: seq<ListHead>, k: nat, node: ListHead)
    requires head !in nodes && Distinct(nodes) && k <= |nodes| && node != head && node !in nodes
    requires var r := Round(head, nodes);
             && LinkedExcept(r, k, k + 1)
             && node.next == r[k + 1] && node.prev == r[k] && r[k].next == node && r[k + 1].prev == node
    ensures Ring(head, nodes[..k] + [node] + nodes[k..])
  {
    var r := Round(head, nodes);
    var after := nodes[..k] + [node] + nodes[k..];
    var q := Round(head, after);
    forall i, j | 0 <= i && j == i + 1 < |q| ensures q[i].next == q[j] && q[j].prev == q[i] {
      if i < k {
        assert q[i] == r[i] && q[i + 1] == r[i + 1];
      } else if i == k {
        assert q[i] == r[k] && q[i + 1] == node;
      } else if i == k + 1 {
        assert q[i] == node && q[i + 1] == r[k + 1];
      } else {
        assert q[i] == r[i - 1] && q[i + 1] == r[i];
      }
    }
  }

  method ListAdd(node: ListHead, head: ListHead, ghost nodes: seq<ListHead>)
    requires Ring(head, nodes) && node != head && node !in nodes
    modifies node, head, head.next
    ensures Ring(head, [node] + nodes)
  {
    ghost var r := Round(head, nodes);
    assert r[0].next == r[1];
    LinkBetween(node, head, head.next);
    Inserted(head, nodes, 0, node);
    assert nodes[..0] + [node] + nodes[0..] == [node] + nodes;
  }

  method ListAddTail(node: ListHead, head: ListHead, ghost nodes: seq<ListHead>)
    requires Ring(head, nodes) && node != head && node !in nodes
    modifies node, head, head.prev
    ensures Ring(head, nodes + [node])
  {
    ghost var r := Round(head, nodes);
    assert r[|nodes|].next == r[|nodes| + 1] && r[|nodes| + 1].prev == r[|nodes|];
    LinkBetween(node, head.prev, head);
    Inserted(head, nodes, |nodes|, node);
    assert nodes[..|nodes|] + [node] + nodes[|nodes|..] == nodes + [node];
  }

  /** `__list_del` */
  method Bypass(prev: ListHead, next: ListHead)
    modifies prev, next
    ensures prev.next == next && next.prev == prev
    ensures prev != next ==> prev.prev == old(prev.prev) && next.next == old(next.next)
  {
    next.prev := prev;
    prev.next := next;
  }

  ghost function Without(nodes: seq<ListHead>, k: nat): seq<ListHead>
    requires k < |nodes|
  {
    nodes[..k] + nodes[k + 1..]
  }

  lemma Removed(head: ListHead, nodes: seq<ListHead>, k: nat)
    requires head !in nodes && Distinct(nodes) && k < |nodes|
    requires var r := Round(head, nodes);
             LinkedExcept(r, k, k + 2) && r[k].next == r[k + 2] && r[k + 2].prev == r[k]
    ensures Ring(head, Without(nodes, k))
  {
    var r := Round(head, nodes);
    var q := Round(head, Without(nodes, k));
    forall i, j | 0 <= i && j == i + 1 < |q| ensures q[i].next == q[j] && q[j].prev == q[i] {
      if i < k {
        assert q[i] == r[i] && q[i + 1] == r[i + 1];
      } else if i == k {
        assert q[i] == r[k] && q[i + 1] == r[k + 2];
      } else {
        assert q[i] == r[i + 1] && q[i + 1] == r[i + 2];
      }
    }
  }

  method ListDel(entry: ListHead, ghost head: ListHead, ghost nodes: seq<ListHead>, ghost k: nat)
    requires Ring(head, nodes) && k < |nodes| && nodes[k] == entry
    modifies entry, entry.prev, entry.next
    ensures Ring(head, Without(nodes, k))
    ensures entry.next == null && entry.prev == null
  {
    ghost var r := Round(head, nodes);
    assert r[k + 1] == entry && r[k].next == r[k + 1] && r[k + 1].next == r[k + 2];
    Bypass(entry.prev, entry.next);
    entry.next, entry.prev := null, null;
    Removed(head, nodes, k);
  }

  method ListDelInit(entry: ListHead, ghost head: ListHead, ghost nodes: seq<ListHead>, ghost k: nat)
    requires Ring(head, nodes) && k < |nodes| && nodes[k] == entry
    modifies entry, entry.prev, entry.next
    ensures Ring(head, Without(nodes, k))
    ensures Ring(entry, [])
  {
    ghost var r := Round(head, nodes);
    assert r[k + 1] == entry && r[k].next == r[k + 1] && r[k + 1].next == r[k + 2];
    Bypass(entry.prev, entry.next);
    InitListHead(entry);
    Removed(head, nodes, k);
  }

  /** `list_splice_init`: all nodes of `list`, in order, come to the front of `head`; `list` is empty after. */
  method ListSpliceInit(list: ListHead, head: ListHead, ghost front: seq<ListHead>, ghost back: seq<ListHead>)
    requires Ring(list, front) && Ring(head, back)
    requires list != head && list !in back && head !in front && forall n :: n in front ==> n !in back
    modifies list, head, list.next, list.prev, head.next
    ensures Ring(head, front + back) && Ring(list, [])
  {
    ghost var rf, rb := Round(list, front), Round(head, back);
    assert rf[0].next == rf[1] && rf[|front|].next == rf[|front| + 1] && rb[0].next == rb[1];
    var empty := ListEmpty(list, front);
    if empty {
      assert front + back == back;
      return;
    }
    var first, last, next := list.next, list.prev, head.next;
    first.prev := head;
    head.next := first;
    last.next := next;
    next.prev := last;
    InitListHead(list);
    Spliced(list, head, front, back);
  }

  lemma Spliced(list: ListHead, head: ListHead, front: seq<ListHead>, back: seq<ListHead>)
    requires front != [] && list !in front && head !in front && head !in back && Distinct(front) && Distinct(back)
    requires forall n :: n in front ==> n !in back
    requires var rf, rb := Round(list, front), Round(head, back);
             && (forall i, j :: 1 <= i && j == i + 1 <= |front| ==> rf[i].next == rf[j] && rf[j].prev == rf[i])
             && LinkedExcept(rb, 0, 1)
             && head.next == front[0] && front[0].prev == head
             && front[|front| - 1].next == rb[1] && rb[1].prev == front[|front| - 1]
    ensures Ring(head, front + back)
  {
    var rf, rb := Round(list, front), Round(head, back);
    var n := |front|;
    var q := Round(head, front + back);
    assert head !in front + back;
    forall i, j | 0 <= i < j < |front + back| ensures (front + back)[i] != (front + back)[j] {
      if i < n <= j {
        assert front[i] in front && back[j - n] in back;
      }
    }
    forall i, j | 0 <= i && j == i + 1 < |q| ensures q[i].next == q[j] && q[j].prev == q[i] {
      if i == 0 {
        assert q[1] == front[0];
      } else if j <= n {
        assert q[i] == rf[i] && q[j] == rf[j];
      } else if i == n {
        assert q[i] == front[n - 1] && q[j] == rb[1];
      } else {
        assert q[i] == rb[i - n] && q[j] == rb[j - n];
      }
    }
  }

  // ---------- the walk that may delete where it stands ----------

  /** The nodes that are not to be dropped, in order. */
  ghost function Kept(nodes: seq<ListHead>, drop: set<ListHead>): (kept: seq<ListHead>)
    ensures forall i :: 0 <= i < |kept| ==> kept[i] in nodes && kept[i] !in drop
  {
    if nodes == [] then []
    else
      var last := nodes[|nodes| - 1];
      var before := Kept(nodes[..|nodes| - 1], drop);
      if last in drop then before else before + [last]
  }

  lemma JoinedThrice(a: seq<ListHead>, b: seq<ListHead>, c: seq<ListHead>)
    ensures a + (b + c) == a + b + c
  {
  }

  /** What is kept of one node: that node or nothing. */
  lemma KeptOfOne(n: ListHead, drop: set<ListHead>)
    ensures Kept([n], drop) == if n in drop then [] else [n]
  {
    KeptOneMore([], n, drop);
    assert [] + [n] == [n];
  }

  lemma KeptJoinedMore(a: seq<ListHead>, front: seq<ListHead>, last: ListHead, drop: set<ListHead>)
    requires Kept(a + front, drop) == Kept(a, drop) + Kept(front, drop)
    ensures Kept(a + (front + [last]), drop) == Kept(a, drop) + Kept(front + [last], drop)
  {
    hide Kept;
    KeptOneMore(front, last, drop);
    KeptOneMore(a + front, last, drop);
    JoinedThrice(a, front, [last]);
    JoinedThrice(Kept(a, drop), Kept(front, drop), [last]);
  }

  lemma NothingJoined(a: seq<ListHead>, drop: set<ListHead>)
    ensures Kept(a + [], drop) == Kept(a, drop) + Kept([], drop)
  {
    assert a + [] == a;
  }

  /** What is kept of two joined sequences is what is kept of each, joined. */
  lemma {:induction false} KeptOfJoined(a: seq<ListHead>, b: seq<ListHead>, drop: set<ListHead>)
    ensures Kept(a + b, drop) == Kept(a, drop) + Kept(b, drop)
  {
    hide Kept;
    if b == [] {
      NothingJoined(a, drop);
    } else {
      var front, last := b[..|b| - 1], b[|b| - 1];
      KeptOfJoined(a, front, drop);
      KeptJoinedMore(a, front, last, drop);
      assert front + [last] == b;
    }
  }

  /** A node with no links, as `list_del` leaves it. */
  ghost predicate Unlinked(node: ListHead)
    reads node
  {
    node.next == null && node.prev == null
  }

  /**
   * `list_for_each_entry_safe` with a body that deletes some of the entries it visits: it visits every
   * node once, in order, and leaves exactly the others, in order.
   */
  method WalkAndDelete(head: ListHead, drop: set<ListHead>, ghost nodes: seq<ListHead>) returns (visited: seq<ListHead>)
    requires Ring(head, nodes)
    modifies head, nodes
    ensures visited == nodes
    ensures Ring(head, Kept(nodes, drop))
    ensures forall n :: n in nodes && n in drop ==> Unlinked(n)
  {
    hide Kept;
    hide Round;
    hide Unlinked;
    hide Distinct;
    NothingVisited(head, nodes, drop);
    hide Ring;
    visited := [];
    ghost var kept: seq<ListHead>, rest := [], nodes;
    var pos := NextOf(head, head, nodes, 0);
    var n := NextOf(pos, head, nodes, if nodes == [] then 0 else 1);
    hide Walking;
    hide NodeOrHead;
    while pos != head
      invariant Walking(head, drop, nodes, visited, kept, rest)
      invariant pos == NodeOrHead(rest, head, 0)
      invariant rest != [] ==> n == NodeOrHead(rest, head, 1)
      decreases |rest|
    {
      AtEntry(rest, head, pos);
      var further;
      further, kept := Step(pos, n, head, drop, nodes, visited, kept, rest);
      visited, rest := visited + [pos], rest[1..];
      pos, n := n, further;
    }
    AllVisited(head, drop, nodes, visited, kept, rest);
  }

  /** One turn of the walk: the body at an entry, and the next two positions. */
  method Step(pos: ListHead, n: ListHead, head: ListHead, drop: set<ListHead>, ghost nodes: seq<ListHead>,
              ghost visited: seq<ListHead>, ghost kept: seq<ListHead>, ghost rest: seq<ListHead>)
    returns (further: ListHead, ghost left: seq<ListHead>)
    requires Walking(head, drop, nodes, visited, kept, rest) && rest != [] && pos == rest[0]
    requires n == NodeOrHead(rest[1..], head, 0)
    modifies head, nodes
    ensures Walking(head, drop, nodes, visited + [pos], left, rest[1..])
    ensures rest[1..] != [] ==> further == NodeOrHead(rest[1..], head, 1)
  {
    hide *;
    left := Visit(pos, head, drop, nodes, visited, kept, rest);
    further := WalkOn(n, head, drop, nodes, visited + [pos], left, rest[1..]);
  }

  lemma AtEntry(rest: seq<ListHead>, head: ListHead, pos: ListHead)
    requires pos == NodeOrHead(rest, head, 0) && pos != head
    ensures rest != [] && pos == rest[0]
    ensures NodeOrHead(rest, head, 1) == NodeOrHead(rest[1..], head, 0)
  {
  }

  lemma AllVisited(head: ListHead, drop: set<ListHead>, nodes: seq<ListHead>,
                   visited: seq<ListHead>, kept: seq<ListHead>, rest: seq<ListHead>)
    requires Walking(head, drop, nodes, visited, kept, rest) && NodeOrHead(rest, head, 0) == head
    ensures visited == nodes && Ring(head, Kept(nodes, drop))
    ensures forall n :: n in nodes && n in drop ==> Unlinked(n)
  {
    HeadApart(head, nodes, visited, rest);
    assert kept + [] == kept;
  }

  /** Half-way through a walk: the ring is what was kept so far, followed by what is still to visit. */
  ghost predicate Walking(head: ListHead, drop: set<ListHead>, nodes: seq<ListHead>,
                          visited: seq<ListHead>, kept: seq<ListHead>, rest: seq<ListHead>)
    reads head, nodes, visited, kept, rest
  {
    && visited + rest == nodes && kept == Kept(visited, drop)
    && Distinct(nodes) && head !in nodes && Ring(head, kept + rest)
    && forall i :: 0 <= i < |visited| && visited[i] in drop ==> Unlinked(visited[i])
  }

  ghost function NodeOrHead(nodes: seq<ListHead>, head: ListHead, i: nat): ListHead {
    if i < |nodes| then nodes[i] else head
  }

  lemma NothingVisited(head: ListHead, nodes: seq<ListHead>, drop: set<ListHead>)
    requires Ring(head, nodes)
    ensures Walking(head, drop, nodes, [], [], nodes)
  {
    assert [] + nodes == nodes;
  }

  lemma HeadApart(head: ListHead, nodes: seq<ListHead>, visited: seq<ListHead>, rest: seq<ListHead>)
    requires visited + rest == nodes && head !in nodes
    ensures rest != [] ==> rest[0] != head
  {
    if rest != [] {
      assert rest[0] == nodes[|visited|];
    }
  }

  lemma KeptOneMore(visited: seq<ListHead>, pos: ListHead, drop: set<ListHead>)
    ensures Kept(visited + [pos], drop) == if pos in drop then Kept(visited, drop) else Kept(visited, drop) + [pos]
  {
    var longer := visited + [pos];
    assert longer[..|longer| - 1] == visited && longer[|longer| - 1] == pos;
  }

  lemma StillWalking(head: ListHead, drop: set<ListHead>, nodes: seq<ListHead>,
                     visited: seq<ListHead>, kept: seq<ListHead>, rest: seq<ListHead>, left: seq<ListHead>)
    requires visited + rest == nodes && rest != [] && kept == Kept(visited, drop)
    requires Distinct(nodes) && head !in nodes
    requires left == (if rest[0] in drop then kept else kept + [rest[0]]) && Ring(head, left + rest[1..])
    requires forall i :: 0 <= i < |visited| && visited[i] in drop ==> Unlinked(visited[i])
    requires rest[0] in drop ==> Unlinked(rest[0])
    ensures Walking(head, drop, nodes, visited + [rest[0]], left, rest[1..])
  {
    hide Ring;
    hide Distinct;
    hide Unlinked;
    KeptOneMore(visited, rest[0], drop);
    hide Kept;
    MovedOver(visited, rest);
    OneMoreUnlinked(visited, rest[0], drop);
  }

  lemma MovedOver(visited: seq<ListHead>, rest: seq<ListHead>)
    requires rest != []
    ensures visited + [rest[0]] + rest[1..] == visited + rest
  {
  }

  lemma OneMoreUnlinked(visited: seq<ListHead>, pos: ListHead, drop: set<ListHead>)
    requires forall i :: 0 <= i < |visited| && visited[i] in drop ==> Unlinked(visited[i])
    requires pos in drop ==> Unlinked(pos)
    ensures forall i :: 0 <= i < |visited + [pos]| && (visited + [pos])[i] in drop ==> Unlinked((visited + [pos])[i])
  {
  }

  /** The body of the walk at one entry. */
  method Visit(pos: ListHead, head: ListHead, drop: set<ListHead>, ghost nodes: seq<ListHead>,
               ghost visited: seq<ListHead>, ghost kept: seq<ListHead>, ghost rest: seq<ListHead>)
    returns (ghost left: seq<ListHead>)
    requires Walking(head, drop, nodes, visited, kept, rest) && rest != [] && pos == rest[0]
    modifies head, nodes
    ensures left == if pos in drop then kept else kept + [pos]
    ensures Walking(head, drop, nodes, visited + [pos], left, rest[1..])
  {
    ghost var now := kept + rest;
    DroppedApart(head, drop, nodes, visited, kept, rest);
    hide Ring;
    hide Kept;
    hide Distinct;
    hide Round;
    left := if pos in drop then kept else kept + [pos];
    if pos in drop {
      ListDel(pos, head, now, |kept|);
      assert Without(now, |kept|) == left + rest[1..];
    } else {
      assert now == left + rest[1..];
    }
    StillWalking(head, drop, nodes, visited, kept, rest, left);
  }

  /** Deleting the next entry touches that entry and its neighbours, and no entry deleted before. */
  lemma DroppedApart(head: ListHead, drop: set<ListHead>, nodes: seq<ListHead>,
                     visited: seq<ListHead>, kept: seq<ListHead>, rest: seq<ListHead>)
    requires Walking(head, drop, nodes, visited, kept, rest) && rest != []
    ensures var pos := rest[0];
            && pos in nodes && (kept + rest)[|kept|] == pos
            && (pos.prev == head || pos.prev in nodes) && (pos.next == head || pos.next in nodes)
            && forall i :: 0 <= i < |visited| && visited[i] in drop ==>
                 visited[i] != pos && visited[i] != pos.prev && visited[i] != pos.next
  {
    var pos := rest[0];
    Neighbours(head, kept + rest, |kept|);
    assert pos.prev == (if kept == [] then head else kept[|kept| - 1]) && pos.next == NodeOrHead(rest, head, 1);
    assert |rest| > 1 ==> rest[1] == nodes[|visited| + 1];
    assert kept != [] ==> kept[|kept| - 1] in visited;
    assert pos == nodes[|visited|];
    forall i | 0 <= i < |visited| && visited[i] in drop
      ensures visited[i] != pos && visited[i] != pos.prev && visited[i] != pos.next
    {
      assert visited[i] == nodes[i];
    }
  }

  method WalkOn(node: ListHead, ghost head: ListHead, ghost drop: set<ListHead>, ghost nodes: seq<ListHead>,
                ghost visited: seq<ListHead>, ghost kept: seq<ListHead>, ghost rest: seq<ListHead>)
    returns (next: ListHead)
    requires Walking(head, drop, nodes, visited, kept, rest) && node == NodeOrHead(rest, head, 0)
    ensures rest != [] ==> next == NodeOrHead(rest, head, 1)
  {
    next := NextOf(node, head, kept + rest, if rest == [] then 0 else |kept| + 1);
  }

  lemma Neighbours(head: ListHead, nodes: seq<ListHead>, k: nat)
    requires Ring(head, nodes) && k < |nodes|
    ensures nodes[k].prev == if k == 0 then head else nodes[k - 1]
    ensures nodes[k].next == NodeOrHead(nodes, head, k + 1)
  {
    var r := Round(head, nodes);
    assert r[k + 1].prev == r[k] && r[k + 1].next == r[k + 2];
  }

  /** The successor of the head (at 0) or of the node at - 1. */
  method NextOf(node: ListHead, ghost head: ListHead, ghost nodes: seq<ListHead>, ghost at: nat)
    returns (next: ListHead)
    requires Ring(head, nodes) && at <= |nodes| && node == if at == 0 then head else nodes[at - 1]
    ensures next == node.next == NodeOrHead(nodes, head, at)
  {
    assert Round(head, nodes)[at].next == Round(head, nodes)[at + 1];
    next := node.next;
  }
}

/**
 The lists of the cloud agent's port layer: a circular doubly-linked list
 (rt_list) and a null-terminated singly-linked one (rt_slist).
 */
module RtList {
  import opened Bytes
  import opened Rings

  method Init(l: Node)
    modifies l
    ensures IsList(l, [])
  {
    l.prev := l;
    l.next := l;
  }

  method InsertAfter(l: Node, n: Node, ghost r: seq<Node>, ghost i: nat)
    requires IsRing(r) && i < |r| && l == r[i] && n !in r
    modifies n, l, l.next
    ensures IsRing(WithBehind(r, i, n))
  {
    Around(r, i);
    l.next.prev := n;
    n.next := l.next;
    l.next := n;
    n.prev := l;
    Inserted(r, i, n);
  }

  /** Links n in front of node i + 1 of the ring, or of the first node when i is the last. */
  method InsertBefore(l: Node, n: Node, ghost r: seq<Node>, ghost i: nat)
    requires IsRing(r) && i < |r| && l == After(r, i) && n !in r
    modifies n, l, l.prev
    ensures IsRing(WithBehind(r, i, n))
  {
    Around(r, i);
    l.prev.next := n;
    n.prev := l.prev;
    l.prev := n;
    n.next := l;
    Inserted(r, i, n);
  }

  /**
   Takes node k out of its ring and leaves it a ring of its own. Nothing but the
   node and its two neighbours is written, so on a node that is already alone
   (the second of two calls) no other list can change.
   */
  method Remove(n: Node, ghost r: seq<Node>, ghost k: nat)
    requires IsRing(r) && k < |r| && n == r[k]
    modifies n, n.next, n.prev
    ensures |r| > 1 ==> IsRing(Without(r, k))
    ensures IsRing([n])
    ensures |r| == 1 ==> unchanged(n)
  {
    ghost var b := if k > 0 then k - 1 else |r| - 1;
    Around(r, k);
    n.next.prev := n.prev;
    n.prev.next := n.next;
    n.prev := n;
    n.next := n;
    if |r| > 1 {
      Removed(r, b, k);
    }
  }

  /** The walk stops in front of the head: it counts the ring's other nodes. */
  method Len(l: Node, ghost s: seq<Node>) returns (len: nat)
    requires IsList(l, s)
    ensures len == |s|
  {
    ghost var r := [l] + s;
    len := 0;
    var p := l;
    Around(r, 0);
    while p.next != l
      invariant len <= |s| && p == r[len] && p.next == After(r, len)
      decreases |s| - len
    {
      p := p.next;
      len := len + 1;
      Around(r, len);
    }
  }

  class SNode {
    var next: SNode?

    constructor ()
      ensures next == null
    {
      next := null;
    }
  }

  ghost function Behind(r: seq<SNode>, i: nat): (n: SNode?)
    requires i < |r|
  {
    if i + 1 < |r| then r[i + 1] else null
  }

  /** The nodes of r hang together by next, and null ends them. */
  ghost predicate IsChain(r: seq<SNode>)
    reads r
  {
    r != [] && forall i {:trigger Behind(r, i)} | 0 <= i < |r| :: r[i].next == Behind(r, i)
  }

  ghost predicate IsSlist(l: SNode, s: seq<SNode>)
    reads l, s
  {
    IsChain([l] + s)
  }

  /** A chain that ends cannot come back to a node. */
  lemma {:induction false} ChainIsDistinct(r: seq<SNode>, i: nat, j: nat)
    requires IsChain(r) && i < j < |r|
    ensures r[i] != r[j]
    decreases |r| - j
  {
    assert r[i].next == Behind(r, i) && r[j].next == Behind(r, j);
    if j + 1 < |r| {
      ChainIsDistinct(r, i + 1, j + 1);
    }
  }

  lemma {:induction false} ChainAt(r: seq<SNode>, i: nat)
    requires IsChain(r) && i < |r|
    ensures r[i].next == Behind(r, i)
    ensures forall j | 0 <= j < |r| && j != i :: r[j] != r[i]
  {
    assert r[i].next == Behind(r, i);
    forall j | 0 <= j < |r| && j != i ensures r[j] != r[i] {
      if i < j {
        ChainIsDistinct(r, i, j);
      } else {
        ChainIsDistinct(r, j, i);
      }
    }
  }

  method SlistInit(l: SNode)
    modifies l
    ensures IsSlist(l, [])
  {
    l.next := null;
  }

  /** The last node of the list, or the head of an empty one. */
  method SlistTail(l: SNode, ghost s: seq<SNode>) returns (tail: SNode)
    requires IsSlist(l, s)
    ensures tail == if s == [] then l else s[|s| - 1]
  {
    ghost var r, k := [l] + s, 0;
    tail := l;
    ChainAt(r, 0);
    while tail.next != null
      invariant k < |r| && tail == r[k] && tail.next == Behind(r, k)
      decreases |r| - k
    {
      tail := tail.next;
      k := k + 1;
      ChainAt(r, k);
    }
  }

  lemma {:induction false} ChainDistinct(r: seq<SNode>)
    requires IsChain(r)
    ensures Distinct(r)
  {
    forall i, j | 0 <= i < j < |r| ensures r[i] != r[j] {
      ChainIsDistinct(r, i, j);
    }
  }

  /** Outside the node behind which something happened, the next links are as before. */
  twostate predicate OnlyNext(r: seq<SNode>, new a: SNode)
    reads r
  {
    forall x | x in r && x != a :: x.next == old(x.next)
  }

  /** x, with the link it is given, was put in behind node i. */
  twostate lemma {:induction false} Chained(r: seq<SNode>, new i: nat, new x: SNode)
    requires old(IsChain(r)) && Distinct(r) && i < |r| && x !in r
    requires r[i].next == x && x.next == Behind(r, i) && OnlyNext(r, r[i])
    ensures IsChain(WithBehind(r, i, x))
  {
    var t := WithBehind(r, i, x);
    forall j | 0 <= j < |t| ensures t[j].next == Behind(t, j) {
      if j != i && j != i + 1 {
        var k := if j < i then j else j - 1;
        assert t[j] == r[k] && r[k] in r && r[k] != r[i];
        assert old(r[k].next) == Behind(r, k);
      }
    }
  }

  /** The link of node i skips the node behind it. */
  twostate lemma {:induction false} Unchained(r: seq<SNode>, new i: nat)
    requires old(IsChain(r)) && Distinct(r) && i + 1 < |r|
    requires r[i].next == Behind(r, i + 1) && OnlyNext(r, r[i])
    ensures IsChain(Without(r, i + 1))
  {
    var t := Without(r, i + 1);
    forall j | 0 <= j < |t| ensures t[j].next == Behind(t, j) {
      if j != i {
        var k := if j < i then j else j + 1;
        assert t[j] == r[k] && r[k] in r && r[k] != r[i];
        assert old(r[k].next) == Behind(r, k);
      }
    }
  }

  method SlistAppend(l: SNode, n: SNode, ghost s: seq<SNode>)
    requires IsSlist(l, s) && n != l && n !in s
    modifies l, s, n
    ensures IsSlist(l, s + [n])
    ensures OnlyNext([l] + s, ([l] + s)[|s|])
  {
    ghost var r, k := [l] + s, 0;
    var node := l;
    ChainDistinct(r);
    ChainAt(r, 0);
    while node.next != null
      modifies {}
      invariant k < |r| && node == r[k] && node.next == Behind(r, k)
      decreases |r| - k
    {
      node := node.next;
      k := k + 1;
      ChainAt(r, k);
    }
    node.next := n;
    n.next := null;
    Chained(r, k, n);
    assert WithBehind(r, k, n) == [l] + (s + [n]);
  }

  method SlistInsert(l: SNode, n: SNode, ghost s: seq<SNode>)
    requires IsSlist(l, s) && n != l && n !in s
    modifies l, n
    ensures IsSlist(l, [n] + s)
  {
    ghost var r := [l] + s;
    ChainDistinct(r);
    ChainAt(r, 0);
    n.next := l.next;
    l.next := n;
    Chained(r, 0, n);
    assert WithBehind(r, 0, n) == [l] + ([n] + s);
  }

  method SlistLen(l: SNode, ghost s: seq<SNode>) returns (len: nat)
    requires IsSlist(l, s)
    ensures len == |s|
  {
    ghost var r := [l] + s;
    len := 0;
    ChainAt(r, 0);
    var list := l.next;
    while list != null
      invariant len < |r| && list == Behind(r, len)
      decreases |r| - len
    {
      ChainAt(r, len + 1);
      list := list.next;
      len := len + 1;
    }
  }

  /** Only a node that led to n may have got another link. */
  twostate predicate OnlyBefore(r: seq<SNode>, new n: SNode)
    reads r
  {
    forall x | x in r && old(x.next) != n :: x.next == old(x.next)
  }

  /**
   Takes exactly n out of the list, or nothing when n is not in it. The node taken
   out keeps its own link, which still leads into the list.
   */
  method SlistRemove(l: SNode, n: SNode, ghost s: seq<SNode>) returns (head: SNode)
    requires IsSlist(l, s)
    modifies l, s
    ensures head == l
    ensures IsSlist(l, Dropping(s, n)) && OnlyBefore([l] + s, n)
  {
    ghost var r, k := [l] + s, 0;
    ChainDistinct(r);
    ChainAt(r, 0);
    var node := l;
    while node.next != null && node.next != n
      modifies {}
      invariant k < |r| && node == r[k] && node.next == Behind(r, k)
      invariant n !in s[..k]
      decreases |r| - k
    {
      node := node.next;
      k := k + 1;
      ChainAt(r, k);
    }
    DroppingMeans(s[..k], n, s[k..]);
    assert s[..k] + s[k..] == s;
    if node.next != null {
      ChainAt(r, k + 1);
      node.next := node.next.next;
      Unchained(r, k);
      assert Without(r, k + 1) == [l] + Without(s, k);
    }
    head := l;
  }

  method SlistIsEmpty(l: SNode, ghost s: seq<SNode>) returns (b: bool)
    requires IsSlist(l, s)
    ensures b <==> s == []
  {
    ChainAt([l] + s, 0);
    b := l.next == null;
  }
}

/**
 The SDK's intrusive doubly-linked list: a ring through a head node. A list
 stands for the sequence of its other nodes, in next order.
 */
module DlList {
  import opened Rings

  method Init(list: Node)
    modifies list
    ensures IsList(list, [])
  {
    list.next := list;
    list.prev := list;
  }

  /** Links item in behind node i of the ring: dl_list_add works on any node, not only a head. */
  method AddBehind(list: Node, item: Node, ghost r: seq<Node>, ghost i: nat)
    requires IsRing(r) && i < |r| && list == r[i] && item !in r
    modifies item, list, list.next
    ensures IsRing(WithBehind(r, i, item))
  {
    Around(r, i);
    item.next := list.next;
    item.prev := list;
    list.next.prev := item;
    list.next := item;
    Inserted(r, i, item);
  }

  method Add(list: Node, item: Node, ghost s: seq<Node>)
    requires IsList(list, s) && item != list && item !in s
    modifies item, list, list.next
    ensures IsList(list, [item] + s)
  {
    AddBehind(list, item, [list] + s, 0);
    assert WithBehind([list] + s, 0, item) == [list] + ([item] + s);
  }

  method AddTail(list: Node, item: Node, ghost s: seq<Node>)
    requires IsList(list, s) && item != list && item !in s
    modifies item, list, list.prev
    ensures IsList(list, s + [item])
  {
    ghost var r := [list] + s;
    Around(r, 0);
    Around(r, |s|);
    AddBehind(list.prev, item, r, |s|);
    assert WithBehind(r, |s|, item) == [list] + (s + [item]);
  }

  /** Unlinks node k of the list; its own links become null. */
  method Del(item: Node, ghost head: Node, ghost s: seq<Node>, ghost k: nat)
    requires IsList(head, s) && k < |s| && item == s[k]
    modifies item, item.next, item.prev
    ensures IsList(head, Without(s, k))
    ensures item.next == null && item.prev == null
  {
    ghost var r := [head] + s;
    Around(r, k + 1);
    item.next.prev := item.prev;
    item.prev.next := item.next;
    item.next := null;
    item.prev := null;
    Removed(r, k, k + 1);
    assert Without(r, k + 1) == [head] + Without(s, k);
  }

  method Empty(list: Node, ghost s: seq<Node>) returns (b: bool)
    requires IsList(list, s)
    ensures b <==> s == []
  {
    Around([list] + s, 0);
    b := list.next == list;
  }

  /** The node at position k of the list, and the head behind the last one. */
  ghost function At(head: Node, s: seq<Node>, k: nat): (n: Node)
    requires k <= |s|
  {
    if k < |s| then s[k] else head
  }

  lemma {:induction false} AtNext(head: Node, s: seq<Node>, k: nat)
    requires IsList(head, s) && k < |s|
    ensures s[k].next == At(head, s, k + 1)
  {
    var r := [head] + s;
    assert Linked(r[k + 1], After(r, k + 1));
  }

  lemma {:induction false} HeadApart(head: Node, s: seq<Node>)
    requires IsList(head, s)
    ensures head !in s && Distinct(s)
  {
    var r := [head] + s;
    forall i | 0 <= i < |s| ensures s[i] == r[i + 1] && r[i + 1] != r[0] {
    }
  }

  lemma {:induction false} HeadNext(head: Node, s: seq<Node>)
    requires IsList(head, s)
    ensures head.next == At(head, s, 0)
  {
    var r := [head] + s;
    assert Linked(r[0], After(r, 0));
  }

  method Len(list: Node, ghost s: seq<Node>) returns (count: nat)
    requires IsList(list, s)
    ensures count == |s|
  {
    HeadApart(list, s);
    HeadNext(list, s);
    var item := list.next;
    count := 0;
    while item != list
      invariant count <= |s| && item == At(list, s, count)
      decreases |s| - count
    {
      AtNext(list, s, count);
      item := item.next;
      count := count + 1;
    }
  }

  /** The nodes among the first k of s that are to stay. */
  ghost function Chosen<T>(s: seq<T>, keep: seq<bool>, k: nat): (t: seq<T>)
    requires k <= |s| && k <= |keep|
  {
    if k == 0 then [] else Chosen(s, keep, k - 1) + if keep[k - 1] then [s[k - 1]] else []
  }

  /** A node of a list without repetition is chosen exactly when it is to stay. */
  lemma {:induction false} ChosenMeans<T>(s: seq<T>, keep: seq<bool>, k: nat, j: nat)
    requires k <= |s| && k <= |keep| && j < |s| && Distinct(s)
    ensures s[j] in Chosen(s, keep, k) <==> j < k && keep[j]
  {
    if k > 0 {
      ChosenMeans(s, keep, k - 1, j);
    }
  }

  /** The list once the walk stands at node k: what stayed, then what is still to come. */
  ghost function Walked<T>(s: seq<T>, keep: seq<bool>, k: nat): (t: seq<T>)
    requires k <= |s| && k <= |keep|
  {
    Chosen(s, keep, k) + s[k..]
  }

  lemma {:induction false} WalkedStep<T>(s: seq<T>, keep: seq<bool>, k: nat)
    requires k < |s| && k < |keep|
    ensures var p := |Chosen(s, keep, k)|; var w := Walked(s, keep, k);
      p < |w| && w[p] == s[k] && Walked(s, keep, k + 1) == if keep[k] then w else Without(w, p)
  {
    var c, rest := Chosen(s, keep, k), s[k + 1..];
    assert s[k..] == [s[k]] + rest;
    Between(c, s[k], rest);
  }

  lemma {:induction false} Between<T>(c: seq<T>, x: T, rest: seq<T>)
    ensures var w := c + ([x] + rest);
      w[|c|] == x && w == c + [x] + rest && Without(w, |c|) == c + rest
  {
    var w := c + ([x] + rest);
    assert w[..|c|] == c && w[|c| + 1..] == rest;
  }

  lemma {:induction false} WalkedWithin<T>(s: seq<T>, keep: seq<bool>, k: nat, x: T)
    requires k <= |s| && k <= |keep| && x in Walked(s, keep, k)
    ensures x in s
  {
    if k > 0 && x !in s[k..] {
      assert x in Chosen(s, keep, k);
      if x != s[k - 1] {
        assert x in Walked(s, keep, k - 1);
        WalkedWithin(s, keep, k - 1, x);
      }
    }
  }

  lemma {:induction false} DroppedIsOut<T>(s: seq<T>, keep: seq<bool>, k: nat)
    requires k <= |s| && k <= |keep| && Distinct(s)
    ensures forall j | 0 <= j < k && !keep[j] :: s[j] !in Walked(s, keep, k)
  {
    forall j | 0 <= j < k && !keep[j] ensures s[j] !in Walked(s, keep, k) {
      ChosenMeans(s, keep, k, j);
    }
  }

  /** From the node the walk stands at, next leads to the following node of the original list. */
  lemma {:induction false} WalkedNext(head: Node, s: seq<Node>, keep: seq<bool>, k: nat)
    requires k < |s| && k < |keep| && IsList(head, Walked(s, keep, k))
    ensures s[k].next == At(head, s, k + 1)
  {
    var w, p := Walked(s, keep, k), |Chosen(s, keep, k)|;
    WalkedStep(s, keep, k);
    AtNext(head, w, p);
    assert w[p..] == s[k..];
    assert k + 1 < |s| ==> w[p + 1] == s[k..][1];
  }

  /** The nodes among the first k of s that were not to stay are linked to nothing. */
  ghost predicate Loose(s: seq<Node>, keep: seq<bool>, k: nat)
    requires k <= |s| && k <= |keep|
    reads s
  {
    forall j | 0 <= j < k && !keep[j] :: s[j].next == null && s[j].prev == null
  }

  /** Node k of the original list, which neither the nodes let go nor the head are. */
  lemma {:induction false} VisitReaches(list: Node, s: seq<Node>, keep: seq<bool>, k: nat)
    requires k < |s| && |keep| == |s| && IsList(list, Walked(s, keep, k))
    ensures s[k].next == list || s[k].next in s
    ensures s[k].prev == list || s[k].prev in s
    ensures s[k].next == list || s[k].next in Walked(s, keep, k)
    ensures s[k].prev == list || s[k].prev in Walked(s, keep, k)
  {
    var w, p := Walked(s, keep, k), |Chosen(s, keep, k)|;
    WalkedStep(s, keep, k);
    Around([list] + w, p + 1);
    assert s[k] == ([list] + w)[p + 1];
    var after: Node, before: Node := s[k].next, s[k].prev;
    if after != list {
      WalkedWithin(s, keep, k, after);
    }
    if before != list {
      WalkedWithin(s, keep, k, before);
    }
  }

  /** The body of the loop below: it deletes the node it is given, or leaves it. */
  method Visit(item: Node, stays: bool, ghost keep: seq<bool>, ghost list: Node, ghost s: seq<Node>, ghost k: nat)
    requires k < |s| && |keep| == |s| && item == At(list, s, k) && stays == keep[k]
    requires list !in s && Distinct(s)
    requires IsList(list, Walked(s, keep, k)) && Loose(s, keep, k)
    modifies list, s
    ensures IsList(list, Walked(s, keep, k + 1)) && Loose(s, keep, k + 1)
  {
    WalkedStep(s, keep, k);
    if !stays {
      DroppedIsOut(s, keep, k);
      VisitReaches(list, s, keep, k);
      Del(item, list, Walked(s, keep, k), |Chosen(s, keep, k)|);
    }
  }

  /** What the walk knows when it stands at node k: item is that node, n the one behind it. */
  ghost predicate Standing(list: Node, s: seq<Node>, keep: seq<bool>, k: nat, item: Node, n: Node?)
    requires k <= |s| && |keep| == |s|
    reads list, s, Walked(s, keep, k)
  {
    && IsList(list, Walked(s, keep, k)) && Loose(s, keep, k)
    && item == At(list, s, k) && (k < |s| ==> n == At(list, s, k + 1))
  }

  lemma {:induction false} StandingFirst(list: Node, s: seq<Node>, keep: seq<bool>)
    requires IsList(list, s) && |keep| == |s|
    ensures list.next != null && Standing(list, s, keep, 0, list.next, list.next.next)
  {
    HeadNext(list, s);
    assert Walked(s, keep, 0) == s;
    if s != [] {
      AtNext(list, s, 0);
    }
  }

  lemma {:induction false} StandingLast(list: Node, s: seq<Node>, keep: seq<bool>)
    requires |keep| == |s| && IsList(list, Walked(s, keep, |s|))
    ensures IsList(list, Chosen(s, keep, |s|))
  {
    assert Walked(s, keep, |s|) == Chosen(s, keep, |s|);
  }

  /**
   dl_list_for_each_safe around a body that deletes the node it is given, or
   leaves it: keep says which, node by node.
   */
  method ForEachSafe(list: Node, keep: seq<bool>, ghost s: seq<Node>) returns (ghost visited: seq<Node>, count: nat)
    requires IsList(list, s) && |keep| == |s|
    modifies list, s
    ensures visited == s && count == |s|
    ensures IsList(list, Chosen(s, keep, |s|)) && Loose(s, keep, |s|)
  {
    visited, count := [], 0;
    HeadApart(list, s);
    StandingFirst(list, s, keep);
    var item: Node := list.next;
    var n := item.next;
    while item != list
      invariant count <= |s| && visited == s[..count]
      invariant Standing(list, s, keep, count, item, n)
      decreases |s| - count
    {
      visited := visited + [item];
      Visit(item, keep[count], keep, list, s, count);
      count := count + 1;
      item := n;
      if count < |s| {
        WalkedNext(list, s, keep, count);
      }
      n := item.next;
    }
    StandingLast(list, s, keep);
  }
}

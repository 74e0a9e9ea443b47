/**
 The list macros of the SSL code: a ring of entries through a head entry. Unlike
 the SDK's own list, an entry taken out keeps its old links.
 */
module EntryList {
  import opened Rings

  /** DLListInit */
  method Init(list: Node)
    modifies list
    ensures IsList(list, [])
  {
    list.prev := list;
    list.next := list;
  }

  /** DLListInsertTail */
  method InsertTail(head: Node, node: Node, ghost s: seq<Node>)
    requires IsList(head, s) && node != head && node !in s
    modifies node, head, head.prev
    ensures IsList(head, s + [node])
  {
    ghost var r := [head] + s;
    Around(r, 0);
    Around(r, |s|);
    assert After(r, |s|) == head;
    node.next := head;
    node.prev := head.prev;
    head.prev.next := node;
    head.prev := node;
    Inserted(r, |s|, node);
    assert WithBehind(r, |s|, node) == [head] + (s + [node]);
  }

  /** DLListGetHead */
  method GetHead(head: Node, ghost s: seq<Node>) returns (first: Node)
    requires IsList(head, s) && s != []
    modifies head, s
    ensures first == s[0] && IsList(head, s[1..])
  {
    ghost var r := [head] + s;
    Around(r, 0);
    Around(r, 1);
    first := head.next;
    head.next.next.prev := head;
    head.next := head.next.next;
    Removed(r, 0, 1);
    assert Without(r, 1) == [head] + s[1..];
  }

  /** DLListRemove */
  method Remove(node: Node, ghost head: Node, ghost s: seq<Node>, ghost k: nat)
    requires IsList(head, s) && k < |s| && node == s[k]
    modifies node.next, node.prev
    ensures IsList(head, Without(s, k))
  {
    ghost var r := [head] + s;
    Around(r, k + 1);
    node.next.prev := node.prev;
    node.prev.next := node.next;
    Removed(r, k, k + 1);
    assert Without(r, k + 1) == [head] + Without(s, k);
  }

  /** No entry is in both lists, their heads included. */
  ghost predicate Separate(head: Node, s: seq<Node>, other: Node, t: seq<Node>) {
    head != other && head !in t && other !in s && forall n | n in s :: n !in t
  }

  /** The first entry of one list becomes the last of the other. */
  method MoveHead(from: Node, to: Node, ghost s: seq<Node>, ghost t: seq<Node>) returns (first: Node)
    requires IsList(from, s) && IsList(to, t) && Separate(from, s, to, t) && s != []
    modifies from, to, s, t
    ensures first == s[0] && IsList(from, s[1..]) && IsList(to, t + [first])
    ensures Separate(from, s[1..], to, t + [first])
  {
    HeadIsApart(from, s);
    Around([to] + t, 0);
    assert forall n | n in t :: n != from && n !in s;
    first := GetHead(from, s);
    assert forall n | n in [to] + t :: n.next == old(n.next) && n.prev == old(n.prev);
    assert IsRing([to] + t);
    assert first in s;
    InsertTail(to, first, t);
  }

  lemma {:induction false} HeadIsApart(head: Node, s: seq<Node>)
    requires IsList(head, s) && s != []
    ensures head !in s && s[0] !in s[1..]
  {
    var r := [head] + s;
    forall i | 0 <= i < |s| ensures s[i] == r[i + 1] && r[i + 1] != r[0] {
    }
    forall i | 1 <= i < |s| ensures s[i] != s[0] {
      assert r[i + 1] != r[1];
    }
  }
}

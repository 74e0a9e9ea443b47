/**
 Circular doubly-linked links: the structure behind both intrusive list
 libraries. A ring is given by the sequence of its nodes in next order.
 */
module Rings {

  class Node {
    var next: Node?
    var prev: Node?

    constructor ()
      ensures next == null && prev == null
    {
      next, prev := null, null;
    }
  }

  ghost predicate Distinct<T>(s: seq<T>) {
    forall i, j | 0 <= i < j < |s| :: s[i] != s[j]
  }

  /** The node behind node i, going around the ring. */
  ghost function After(r: seq<Node>, i: nat): (n: Node)
    requires i < |r|
  {
    if i + 1 < |r| then r[i + 1] else r[0]
  }

  ghost predicate Linked(a: Node, b: Node)
    reads a, b
  {
    a.next == b && b.prev == a
  }

  ghost predicate IsRing(r: seq<Node>)
    reads r
  {
    r != [] && Distinct(r) && forall i {:trigger After(r, i)} | 0 <= i < |r| :: Linked(r[i], After(r, i))
  }

  /** The list with this head holds the nodes of s. */
  ghost predicate IsList(head: Node, s: seq<Node>)
    reads head, s
  {
    IsRing([head] + s)
  }

  ghost function WithBehind<T>(r: seq<T>, i: nat, x: T): (t: seq<T>)
    requires i < |r|
  {
    r[..i + 1] + [x] + r[i + 1..]
  }

  ghost function Without<T>(s: seq<T>, k: nat): (t: seq<T>)
    requires k < |s|
  {
    s[..k] + s[k + 1..]
  }

  /** Where the nodes of r, and their successors, stand once x is put in behind node i. */
  lemma {:induction false} AfterWithBehind(r: seq<Node>, i: nat, x: Node, j: nat)
    requires i < |r| && j < |r|
    ensures var t := WithBehind(r, i, x); var k := if j <= i then j else j + 1;
      t[k] == r[j] && After(t, k) == if j == i then x else After(r, j)
    ensures After(WithBehind(r, i, x), i + 1) == After(r, i)
  {
  }

  lemma {:induction false} AfterIsUnique(r: seq<Node>, i: nat, j: nat)
    requires Distinct(r) && i < |r| && j < |r| && i != j
    ensures r[i] != r[j] && After(r, i) != After(r, j)
  {
  }

  /** next and prev of every node in the ring are inverse, and stay inside it. */
  lemma {:induction false} Around(r: seq<Node>, i: nat)
    requires IsRing(r) && i < |r|
    ensures r[i].next == After(r, i) && r[i].prev == if i > 0 then r[i - 1] else r[|r| - 1]
    ensures r[i].next != null && r[i].prev != null
    ensures r[i].next in r && r[i].prev in r
    ensures r[i].next.prev == r[i] && r[i].prev.next == r[i]
  {
    var j := if i > 0 then i - 1 else |r| - 1;
    assert After(r, j) == r[i];
    assert Linked(r[j], After(r, j)) && Linked(r[i], After(r, i));
  }

  /** Apart from the next links of a and x and the prev links of b and x, the links are as before. */
  twostate predicate OnlyRelinked(r: seq<Node>, new a: Node, new x: Node, new b: Node)
    reads r
  {
    forall n | n in r && n != x ::
      (n == a || n.next == old(n.next)) && (n == b || n.prev == old(n.prev))
  }

  twostate lemma {:induction false} StillLinked(r: seq<Node>, new i: nat, new a: Node, new x: Node, new b: Node)
    requires old(IsRing(r)) && i < |r| && OnlyRelinked(r, a, x, b)
    requires r[i] != a && r[i] != x && After(r, i) != b && After(r, i) != x
    ensures Linked(r[i], After(r, i))
  {
    assert old(Linked(r[i], After(r, i)));
    assert r[i] in r;
  }

  lemma {:induction false} WithBehindIsDistinct<T>(r: seq<T>, i: nat, x: T)
    requires Distinct(r) && i < |r| && x !in r
    ensures Distinct(WithBehind(r, i, x))
  {
    var t := WithBehind(r, i, x);
    forall j, k | 0 <= j < k < |t| ensures t[j] != t[k] {
      assert j <= i ==> t[j] == r[j];
      assert k > i + 1 ==> t[k] == r[k - 1];
    }
  }

  lemma {:induction false} WithoutIsDistinct<T>(s: seq<T>, k: nat)
    requires Distinct(s) && k < |s|
    ensures Distinct(Without(s, k)) && s[k] !in Without(s, k)
  {
  }

  /** item was linked in behind node i, and no other link of the ring changed. */
  twostate lemma {:induction false} Inserted(r: seq<Node>, new i: nat, new item: Node)
    requires old(IsRing(r)) && i < |r| && item !in r
    requires r[i].next == item && item.prev == r[i]
    requires item.next == After(r, i) && After(r, i).prev == item
    requires OnlyRelinked(r, r[i], item, After(r, i))
    ensures IsRing(WithBehind(r, i, item))
  {
    var t := WithBehind(r, i, item);
    WithBehindIsDistinct(r, i, item);
    forall j | 0 <= j < |t| ensures Linked(t[j], After(t, j)) {
      var k := if j <= i then j else j - 1;
      AfterWithBehind(r, i, item, k);
      if j != i && j != i + 1 {
        AfterIsUnique(r, k, i);
        StillLinked(r, k, r[i], item, After(r, i));
      }
    }
  }

  /** Node k was unlinked, and no other link of the remaining ring changed. */
  twostate lemma {:induction false} Removed(r: seq<Node>, new b: nat, new k: nat)
    requires old(IsRing(r)) && b < |r| && k < |r| && |r| > 1 && After(r, b) == r[k]
    requires Linked(r[b], After(r, k))
    requires OnlyRelinked(r, r[b], r[k], After(r, k))
    ensures IsRing(Without(r, k))
  {
    var t := Without(r, k);
    WithoutIsDistinct(r, k);
    forall j | 0 <= j < |t| ensures Linked(t[j], After(t, j)) {
      var i := if j < k then j else j + 1;
      assert t[j] == r[i];
      if i == b {
        assert After(t, j) == After(r, k);
      } else {
        AfterIsUnique(r, i, b);
        AfterIsUnique(r, i, k);
        assert After(t, j) == After(r, i);
        StillLinked(r, i, r[b], r[k], After(r, k));
      }
    }
  }
}

/**
 The two connection lists of the SSL demo server, g_conns and the list a pass
 works through: rings of the entries inside the connection records.
 */
module ConnLists {
  import opened Rings
  import opened HttpParser
  import opened HttpRuns
  import EntryList

  /** The list entries of some connections. */
  ghost function Entries(cs: seq<HttpConn>): (e: seq<Node>)
    ensures |e| == |cs|
  {
    seq(|cs|, i requires 0 <= i < |cs| => cs[i].entry)
  }

  lemma {:induction false} EntriesParts(a: seq<HttpConn>, b: seq<HttpConn>)
    ensures Entries(a + b) == Entries(a) + Entries(b)
  {
  }

  lemma {:induction false} EntriesTail(cs: seq<HttpConn>)
    requires cs != []
    ensures Entries(cs)[0] == cs[0].entry && Entries(cs)[1..] == Entries(cs[1..])
  {
  }

  lemma {:induction false} EntriesHold(cs: seq<HttpConn>)
    ensures forall c | c in cs :: c.entry in Entries(cs)
  {
    forall c | c in cs ensures c.entry in Entries(cs) {
      var i :| 0 <= i < |cs| && cs[i] == c;
      assert Entries(cs)[i] == c.entry;
    }
  }

  /** What select is called with: one more than the greatest descriptor watched. */
  ghost predicate IsBound(nfds: int, lfd: int, cs: seq<HttpConn>) {
    && lfd < nfds && (forall c | c in cs :: c.fd < nfds)
    && (nfds == 0 || nfds - 1 == lfd || exists c :: c in cs && c.fd == nfds - 1)
  }

  lemma {:induction false} BoundMore(nfds: int, lfd: int, cs: seq<HttpConn>, c: HttpConn)
    requires IsBound(nfds, lfd, cs)
    ensures IsBound(if c.fd >= nfds then c.fd + 1 else nfds, lfd, cs + [c])
  {
    assert c in cs + [c];
    if nfds > c.fd && nfds != 0 && nfds - 1 != lfd {
      var d :| d in cs && d.fd == nfds - 1;
      assert d in cs + [c];
    }
  }

  class Lists {
    const gConns: Node
    const connsTmp: Node
    var container: map<Node, HttpConn>   // the record around an entry: the source computes its address
    ghost var conns: seq<HttpConn>
    ghost var detached: seq<HttpConn>
    ghost var repr: set<Node>   // all nodes of the two rings, and of those gone

    /** The rings hold the entries of the two lists of connections, and no entry is in both. */
    ghost predicate Valid()
      reads this, repr
    {
      && gConns in repr && connsTmp in repr
      && (forall n | n in Entries(conns) :: n in repr) && (forall n | n in Entries(detached) :: n in repr)
      && IsList(gConns, Entries(conns)) && IsList(connsTmp, Entries(detached))
      && EntryList.Separate(gConns, Entries(conns), connsTmp, Entries(detached))
      && (forall c | c in conns :: c.entry in container && container[c.entry] == c)
      && (forall c | c in detached :: c.entry in container && container[c.entry] == c)
    }

    constructor ()
      ensures Valid() && conns == [] && detached == [] && fresh(repr)
    {
      gConns := new Node();
      connsTmp := new Node();
      container, conns, detached := map[], [], [];
      new;
      repr := {gConns, connsTmp};
      EntryList.Init(gConns);
      EntryList.Init(connsTmp);
      assert Entries([]) == [];
    }

    /** DLListIsEmpty(&g_conns) */
    function NoConns(): (b: bool)
      requires Valid()
      reads this, repr
      ensures b <==> conns == []
    {
      Around([gConns] + Entries(conns), 0);
      gConns.next == gConns
    }

    /** DLListIsEmpty(&connsTmp) */
    function NoneDetached(): (b: bool)
      requires Valid()
      reads this, repr
      ensures b <==> detached == []
    {
      Around([connsTmp] + Entries(detached), 0);
      connsTmp.next == connsTmp
    }

    /** The first connection of g_conns goes to the end of the other list. */
    method Detach() returns (cp: HttpConn)
      requires Valid() && conns != []
      modifies this, repr
      ensures Valid() && cp == old(conns)[0] && conns == old(conns)[1..] && detached == old(detached) + [cp]
      ensures repr == old(repr)
    {
      ghost var from, to, first := conns, detached, conns[0];
      EntriesTail(from);
      EntriesParts(to, [first]);
      assert Entries([first]) == [first.entry];
      var n := EntryList.MoveHead(gConns, connsTmp, Entries(from), Entries(to));
      cp := container[n];
      conns, detached := from[1..], to + [cp];
    }

    /** The first connection of the other list goes to the end of g_conns. */
    method Reattach() returns (cp: HttpConn)
      requires Valid() && detached != []
      modifies this, repr
      ensures Valid() && cp == old(detached)[0] && detached == old(detached)[1..] && conns == old(conns) + [cp]
      ensures repr == old(repr)
    {
      ghost var from, to, first := detached, conns, detached[0];
      EntriesTail(from);
      EntriesParts(to, [first]);
      assert Entries([first]) == [first.entry];
      var n := EntryList.MoveHead(connsTmp, gConns, Entries(from), Entries(to));
      cp := container[n];
      detached, conns := from[1..], to + [cp];
    }

    /** A new connection goes to the end of the pass's list. */
    method Join(cp: HttpConn)
      requires Valid() && cp.entry !in repr
      modifies this, repr, cp.entry
      ensures Valid() && detached == old(detached) + [cp] && conns == old(conns)
      ensures repr == old(repr) + {cp.entry}
    {
      EntriesParts(detached, [cp]);
      EntriesHold(conns);
      EntriesHold(detached);
      assert Entries([cp]) == [cp.entry];
      Around([connsTmp] + Entries(detached), 0);
      assert forall n | n in Entries(conns) :: n != connsTmp.prev && n != connsTmp && n != cp.entry;
      EntryList.InsertTail(connsTmp, cp.entry, Entries(detached));
      container := container[cp.entry := cp];
      detached := detached + [cp];
      repr := repr + {cp.entry};
    }

    /** The connection at place k leaves g_conns. */
    method Remove(cp: HttpConn, ghost k: nat)
      requires Valid() && k < |conns| && cp == conns[k]
      modifies this, repr
      ensures Valid() && conns == Without(old(conns), k) && detached == old(detached)
      ensures repr == old(repr)
    {
      ghost var all, e := conns, Entries(conns);
      Around([gConns] + e, k + 1);
      assert Entries(Without(all, k)) == Without(e, k);
      EntryList.Remove(cp.entry, gConns, e, k);
      conns := Without(all, k);
    }

    /** All connections move to the list of the pass, in order; nfds is what select
        is called with. */
    method DetachAll(lfd: int) returns (nfds: int)
      requires Valid() && detached == []
      modifies this, repr
      ensures Valid() && repr == old(repr)
      ensures conns == [] && detached == old(conns)
      ensures IsBound(nfds, lfd, detached)
    {
      var maxfd := INVALID_SOCKET;
      if lfd > maxfd {
        maxfd := lfd;
      }
      assert [] + conns == conns;
      while !NoConns()
        invariant Valid() && repr == old(repr)
        invariant detached + conns == old(conns)
        invariant IsBound(maxfd + 1, lfd, detached)
        decreases |conns|
      {
        ghost var bound, seen := maxfd + 1, detached;
        var cp := Detach();
        if cp.fd > maxfd {
          maxfd := cp.fd;
        }
        BoundMore(bound, lfd, seen, cp);
      }
      assert detached + [] == detached;
      nfds := maxfd + 1;
    }

    /** Puts every connection back, in order. */
    method ReattachAll()
      requires Valid() && conns == []
      modifies this, repr
      ensures Valid() && repr == old(repr)
      ensures conns == old(detached) && detached == []
    {
      assert [] + detached == detached;
      while !NoneDetached()
        invariant Valid() && repr == old(repr)
        invariant conns + detached == old(detached)
        decreases |detached|
      {
        var cp := Reattach();
      }
      assert conns + [] == conns;
    }
  }
}

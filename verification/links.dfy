/**
 The connection store shared by signals and slots.

 Each endpoint owns an ordered list of connection records. A record names
 the endpoint on the other side (`peer`) and the position (`id`) of the
 mirror record inside that peer's own list. The store is written once, over
 two generic endpoint kinds: `left` endpoints (slots, in the registry) and
 `right` endpoints (signals). `Flip` swaps the roles, so the disconnect of a
 right endpoint is the disconnect of a left endpoint in the flipped store.
 */
module Links {

  /** One connection record: the peer endpoint and the position of the mirror record. */
  datatype Link<P> = Link(peer: P, id: nat)

  /** Both endpoint kinds with their connection lists. */
  datatype Bipartite<A, B> = Bipartite(left: map<A, seq<Link<B>>>, right: map<B, seq<Link<A>>>)

  /** The same store seen from the other side. */
  function Flip<A, B>(g: Bipartite<A, B>): Bipartite<B, A>
  {
    Bipartite(g.right, g.left)
  }

  /** The peers of a connection list, in list order. */
  function Peers<P>(s: seq<Link<P>>): (ps: seq<P>)
    ensures |ps| == |s|
    ensures forall k :: 0 <= k < |s| ==> ps[k] == s[k].peer
  {
    seq(|s|, k requires 0 <= k < |s| => s[k].peer)
  }

  /** The number of edges a connection list holds to the endpoint `p`. */
  function EdgesTo<P(==)>(s: seq<Link<P>>, p: P): nat
  {
    multiset(Peers(s))[p]
  }

  /** Record `k` of endpoint `t` in `x` has its mirror in `y`, pointing back at position `k`. */
  ghost predicate Backed<A, B>(x: map<A, seq<Link<B>>>, y: map<B, seq<Link<A>>>, t: A, k: int)
    requires t in x && 0 <= k < |x[t]|
  {
    var l := x[t][k];
    l.peer in y && l.id < |y[l.peer]| && y[l.peer][l.id] == Link(t, k)
  }

  /** Every record of `x` is backed by a mirror record in `y`. */
  ghost predicate Mirrored<A, B>(x: map<A, seq<Link<B>>>, y: map<B, seq<Link<A>>>)
  {
    forall t, k :: t in x && 0 <= k < |x[t]| ==> Backed(x, y, t, k)
  }

  /** The mutual index invariant: every record on either side has its mirror. */
  ghost predicate MirrorInv<A, B>(g: Bipartite<A, B>)
  {
    Mirrored(g.left, g.right) && Mirrored(g.right, g.left)
  }

  /**
   The state part-way through disconnecting the left endpoint `u`: its
   records below position `i` are dead (their mirrors are gone), every
   other record still has its mirror, and no right record points at a dead one.
   */
  ghost predicate Draining<A, B>(g: Bipartite<A, B>, u: A, i: nat)
  {
    && (forall t, k :: t in g.left && 0 <= k < |g.left[t]| && (t != u || i <= k) ==> Backed(g.left, g.right, t, k))
    && (forall v, j :: v in g.right && 0 <= j < |g.right[v]| ==> Backed(g.right, g.left, v, j) && LiveTarget(g, u, i, v, j))
  }

  /** Right record `j` of `v` does not point at one of the first `i` records of `u`. */
  ghost predicate LiveTarget<A, B>(g: Bipartite<A, B>, u: A, i: nat, v: B, j: int)
    requires v in g.right && 0 <= j < |g.right[v]|
  {
    g.right[v][j].peer != u || i <= g.right[v][j].id
  }

  lemma MirrorInvStartsDraining<A, B>(g: Bipartite<A, B>, u: A)
    requires MirrorInv(g)
    ensures Draining(g, u, 0)
  {
  }

  /** The invariant does not depend on which side is called left. */
  lemma FlipMirrorInv<A, B>(g: Bipartite<A, B>)
    ensures MirrorInv(Flip(g)) <==> MirrorInv(g)
  {
  }

  /** Under the invariant every record names a live endpoint. */
  lemma PeersAreLive<A, B>(g: Bipartite<A, B>, v: B)
    requires MirrorInv(g) && v in g.right
    ensures forall j :: 0 <= j < |g.right[v]| ==> g.right[v][j].peer in g.left
  {
    forall j | 0 <= j < |g.right[v]|
      ensures g.right[v][j].peer in g.left
    {
      assert Backed(g.right, g.left, v, j);
    }
  }

  /** Under the invariant a left endpoint has records exactly when some right list names it. */
  lemma NamedIffListed<A, B>(g: Bipartite<A, B>, u: A)
    requires u in g.left
    ensures MirrorInv(g) ==> (|g.left[u]| != 0 <==> exists v :: v in g.right && EdgesTo(g.right[v], u) > 0)
  {
    if MirrorInv(g) {
      if |g.left[u]| != 0 {
        assert Backed(g.left, g.right, u, 0);
        var v := g.left[u][0].peer;
        assert Peers(g.right[v])[g.left[u][0].id] == u;
        assert u in multiset(Peers(g.right[v]));
      }
      if exists v :: v in g.right && EdgesTo(g.right[v], u) > 0 {
        var v :| v in g.right && EdgesTo(g.right[v], u) > 0;
        assert u in Peers(g.right[v]);
        var j :| 0 <= j < |g.right[v]| && Peers(g.right[v])[j] == u;
        assert Backed(g.right, g.left, v, j);
      }
    }
  }

  // ---------------------------------------------------------------------
  // Sequence facts about peers and edge counts
  // ---------------------------------------------------------------------

  lemma PeersSlice<P>(s: seq<Link<P>>, i: nat)
    requires i <= |s|
    ensures Peers(s[i..]) == Peers(s)[i..]
  {
  }

  lemma EdgesToSuffix<P>(s: seq<Link<P>>, i: nat)
    requires i < |s|
    ensures forall p :: EdgesTo(s[i..], p) == EdgesTo(s[i + 1..], p) + (if s[i].peer == p then 1 else 0)
  {
    PeersSlice(s, i);
    PeersSlice(s, i + 1);
    assert Peers(s)[i..] == [Peers(s)[i]] + Peers(s)[i + 1..];
  }

  lemma SamePeersSameSuffixEdges<P>(s1: seq<Link<P>>, s2: seq<Link<P>>, i: nat)
    requires Peers(s1) == Peers(s2) && i <= |s1|
    ensures forall p :: EdgesTo(s1[i..], p) == EdgesTo(s2[i..], p)
  {
    PeersSlice(s1, i);
    PeersSlice(s2, i);
  }

  lemma SliceCons<T>(q: seq<T>, i: nat)
    requires i < |q|
    ensures q[i..] == [q[i]] + q[i + 1..]
  {
  }

  /** Swap-removing position `id` of a list drops exactly that record's peer from its peer multiset. */
  lemma SwapRemovePeers<P>(s: seq<Link<P>>, id: nat)
    requires id < |s|
    ensures multiset(Peers(s[id := s[|s| - 1]][..|s| - 1])) == multiset(Peers(s)) - multiset{s[id].peer}
  {
    var last := |s| - 1;
    var q := Peers(s);
    assert q == q[..last] + [q[last]];
    assert multiset(q) == multiset(q[..last]) + multiset{q[last]};
    if id < last {
      assert Peers(s[id := s[last]][..last]) == q[..last][id := q[last]];
      assert q[..last][id] == q[id];
    } else {
      assert s[id := s[last]] == s;
      assert Peers(s[id := s[last]][..last]) == q[..last];
    }
  }

  // ---------------------------------------------------------------------
  // connect
  // ---------------------------------------------------------------------

  /**
   Connects left endpoint `u` to right endpoint `v`: one record is appended to
   each list, and each new record stores the other list's length before the
   insertion. Connecting a pair that is already connected adds a second edge.
   */
  function Connect<A, B>(g: Bipartite<A, B>, u: A, v: B): (r: Bipartite<A, B>)
    requires u in g.left && v in g.right
    ensures r.left.Keys == g.left.Keys && r.right.Keys == g.right.Keys
    ensures |r.left[u]| == |g.left[u]| + 1 && r.left[u][..|g.left[u]|] == g.left[u]
    ensures |r.right[v]| == |g.right[v]| + 1 && r.right[v][..|g.right[v]|] == g.right[v]
    ensures r.left[u][|g.left[u]|].peer == v && r.right[v][|g.right[v]|].peer == u
    ensures r.left[u][|g.left[u]|].id < |r.right[v]| && r.right[v][r.left[u][|g.left[u]|].id] == Link(u, |g.left[u]|)
    ensures r.right[v][|g.right[v]|].id < |r.left[u]| && r.left[u][r.right[v][|g.right[v]|].id] == Link(v, |g.right[v]|)
    ensures forall t :: t in g.left && t != u ==> r.left[t] == g.left[t]
    ensures forall x :: x in g.right && x != v ==> r.right[x] == g.right[x]
    ensures MirrorInv(g) ==> MirrorInv(r)
  {
    var slotLen := |g.left[u]|;
    var signalLen := |g.right[v]|;
    var r := Bipartite(g.left[u := g.left[u] + [Link(v, signalLen)]],
                       g.right[v := g.right[v] + [Link(u, slotLen)]]);
    ConnectKeepsMirrorInv(g, u, v, r);
    r
  }

  lemma ConnectKeepsMirrorInv<A, B>(g: Bipartite<A, B>, u: A, v: B, r: Bipartite<A, B>)
    requires u in g.left && v in g.right
    requires r == Bipartite(g.left[u := g.left[u] + [Link(v, |g.right[v]|)]],
                            g.right[v := g.right[v] + [Link(u, |g.left[u]|)]])
    ensures MirrorInv(g) ==> MirrorInv(r)
  {
    if MirrorInv(g) {
      forall t, k | t in r.left && 0 <= k < |r.left[t]|
        ensures Backed(r.left, r.right, t, k)
      {
        if t != u || k != |g.left[u]| {
          assert r.left[t][k] == g.left[t][k];
          assert Backed(g.left, g.right, t, k);
        }
      }
      forall x, j | x in r.right && 0 <= j < |r.right[x]|
        ensures Backed(r.right, r.left, x, j)
      {
        if x != v || j != |g.right[v]| {
          assert r.right[x][j] == g.right[x][j];
          assert Backed(g.right, g.left, x, j);
        }
      }
    }
  }

  /** Two connects of the same pair give two edges, each with its own pair of mirror records. */
  lemma {:induction false} ConnectTwiceMakesTwoEdges<A, B>(g: Bipartite<A, B>, u: A, v: B)
    requires MirrorInv(g) && u in g.left && v in g.right
    ensures EdgesTo(Connect(Connect(g, u, v), u, v).left[u], v) == EdgesTo(g.left[u], v) + 2
    ensures EdgesTo(Connect(Connect(g, u, v), u, v).right[v], u) == EdgesTo(g.right[v], u) + 2
    ensures MirrorInv(Connect(Connect(g, u, v), u, v))
  {
    var once := Connect(g, u, v);
    var twice := Connect(once, u, v);
    AppendOneEdge(g.left[u], once.left[u], v);
    AppendOneEdge(once.left[u], twice.left[u], v);
    AppendOneEdge(g.right[v], once.right[v], u);
    AppendOneEdge(once.right[v], twice.right[v], u);
  }

  lemma PeersAppend<P>(s: seq<Link<P>>, s': seq<Link<P>>, p: P)
    requires |s'| == |s| + 1 && s'[..|s|] == s && s'[|s|].peer == p
    ensures Peers(s') == Peers(s) + [p]
  {
    assert s' == s + [s'[|s|]];
  }

  lemma AppendOneEdge<P>(s: seq<Link<P>>, s': seq<Link<P>>, p: P)
    requires |s'| == |s| + 1 && s'[..|s|] == s && s'[|s|].peer == p
    ensures EdgesTo(s', p) == EdgesTo(s, p) + 1
    ensures forall q :: q != p ==> EdgesTo(s', q) == EdgesTo(s, q)
  {
    assert s' == s + [s'[|s|]];
    assert Peers(s') == Peers(s) + [p];
  }

  // ---------------------------------------------------------------------
  // disconnect
  // ---------------------------------------------------------------------

  /** The positions one removal step reads and writes are all in range. */
  predicate UnlinkDefined<A, B>(g: Bipartite<A, B>, u: A, i: nat)
    requires u in g.left && i < |g.left[u]|
  {
    var con := g.left[u][i];
    && con.peer in g.right
    && con.id < |g.right[con.peer]|
    && var moved := g.right[con.peer][|g.right[con.peer]| - 1];
       moved.peer in g.left && moved.id < |g.left[moved.peer]|
  }

  /**
   One step of the disconnect of `u`: record `i` of `u` names the peer `v`
   and the position `id` of the mirror. The last record of `v` overwrites
   position `id`, the record that the moved one mirrors gets its back-index
   set to `id`, and the last position of `v` is popped.
   */
  function Unlink<A, B>(g: Bipartite<A, B>, u: A, i: nat): (r: Bipartite<A, B>)
    requires u in g.left && i < |g.left[u]| && UnlinkDefined(g, u, i)
    ensures r.left.Keys == g.left.Keys && r.right.Keys == g.right.Keys
    ensures forall t :: t in g.left ==> Peers(r.left[t]) == Peers(g.left[t])
    ensures forall x :: x in g.right && x != g.left[u][i].peer ==> r.right[x] == g.right[x]
    ensures |r.right[g.left[u][i].peer]| == |g.right[g.left[u][i].peer]| - 1
    ensures multiset(Peers(r.right[g.left[u][i].peer]))
         == multiset(Peers(g.right[g.left[u][i].peer])) - multiset{g.right[g.left[u][i].peer][g.left[u][i].id].peer}
  {
    var v := g.left[u][i].peer;
    var id := g.left[u][i].id;
    var list := g.right[v];
    var last := |list| - 1;
    var swapped := list[id := list[last]];
    var moved := swapped[id];
    var fixed := g.left[moved.peer][moved.id := g.left[moved.peer][moved.id].(id := id)];
    assert Peers(fixed) == Peers(g.left[moved.peer]);
    SwapRemovePeers(list, id);
    Bipartite(g.left[moved.peer := fixed], g.right[v := swapped[..last]])
  }

  /** What one removal step changes, position by position. */
  lemma UnlinkPointwise<A, B>(g: Bipartite<A, B>, u: A, i: nat)
    requires u in g.left && i < |g.left[u]| && UnlinkDefined(g, u, i)
    ensures var v, id := g.left[u][i].peer, g.left[u][i].id;
            var last := |g.right[v]| - 1;
            var moved := g.right[v][last];
            var r := Unlink(g, u, i);
            && (forall t :: t in g.left ==> |r.left[t]| == |g.left[t]|)
            && (forall t, k :: t in g.left && 0 <= k < |g.left[t]| && (t != moved.peer || k != moved.id) ==>
                  r.left[t][k] == g.left[t][k])
            && r.left[moved.peer][moved.id] == g.left[moved.peer][moved.id].(id := id)
            && |r.right[v]| == last
            && (forall j :: 0 <= j < last && j != id ==> r.right[v][j] == g.right[v][j])
            && (id < last ==> r.right[v][id] == moved)
  {
  }

  /**
   `r` is `g` after one removal step of record `i` of `u`, which names the
   peer `v` and the mirror position `id`; `moved` is the last record of `v`,
   which fills position `id`, and the record it mirrors gets `id` as its
   back-index.
   */
  ghost predicate UnlinkStep<A, B>(g: Bipartite<A, B>, r: Bipartite<A, B>, u: A, i: nat, v: B, id: nat, moved: Link<A>)
  {
    && u in g.left && i < |g.left[u]| && g.left[u][i] == Link(v, id)
    && v in g.right && id < |g.right[v]| && moved == g.right[v][|g.right[v]| - 1]
    && r.left.Keys == g.left.Keys && r.right.Keys == g.right.Keys
    && (forall w :: w in g.right && w != v ==> r.right[w] == g.right[w])
    && (forall t :: t in g.left ==> |r.left[t]| == |g.left[t]|)
    && (forall t, k :: t in g.left && 0 <= k < |g.left[t]| && (t != moved.peer || k != moved.id) ==>
          r.left[t][k] == g.left[t][k])
    && moved.peer in g.left && moved.id < |g.left[moved.peer]|
    && r.left[moved.peer][moved.id] == Link(v, id)
    && |r.right[v]| == |g.right[v]| - 1
    && (forall j :: 0 <= j < |g.right[v]| - 1 && j != id ==> r.right[v][j] == g.right[v][j])
    && (id < |g.right[v]| - 1 ==> r.right[v][id] == moved)
  }

  lemma UnlinkKeepsLeft<A, B>(g: Bipartite<A, B>, r: Bipartite<A, B>, u: A, i: nat, v: B, id: nat, moved: Link<A>)
    requires Draining(g, u, i) && UnlinkStep(g, r, u, i, v, id, moved)
    ensures forall t, k :: t in r.left && 0 <= k < |r.left[t]| && (t != u || i + 1 <= k) ==> Backed(r.left, r.right, t, k)
  {
    var last := |g.right[v]| - 1;
    assert Backed(g.left, g.right, u, i);
    assert Backed(g.right, g.left, v, last);
    forall t, k | t in r.left && 0 <= k < |r.left[t]| && (t != u || i + 1 <= k)
      ensures Backed(r.left, r.right, t, k)
    {
      if t == moved.peer && k == moved.id {
        assert id != last;
      } else {
        var l := g.left[t][k];
        assert r.left[t][k] == l;
        assert Backed(g.left, g.right, t, k);
        if l.peer == v {
          assert l.id != id && l.id != last;
        }
      }
    }
  }

  lemma UnlinkKeepsRight<A, B>(g: Bipartite<A, B>, r: Bipartite<A, B>, u: A, i: nat, v: B, id: nat, moved: Link<A>)
    requires Draining(g, u, i) && UnlinkStep(g, r, u, i, v, id, moved)
    ensures forall w, j :: w in r.right && 0 <= j < |r.right[w]| ==> Backed(r.right, r.left, w, j) && LiveTarget(r, u, i + 1, w, j)
  {
    var last := |g.right[v]| - 1;
    assert Backed(g.left, g.right, u, i);
    assert Backed(g.right, g.left, v, last);
    assert LiveTarget(g, u, i, v, last);
    forall w, j | w in r.right && 0 <= j < |r.right[w]|
      ensures Backed(r.right, r.left, w, j) && LiveTarget(r, u, i + 1, w, j)
    {
      if w == v && j == id {
        assert r.right[v][j] == moved;
      } else {
        var l := g.right[w][j];
        assert r.right[w][j] == l;
        assert Backed(g.right, g.left, w, j);
        assert LiveTarget(g, u, i, w, j);
        assert (l.peer, l.id) != (moved.peer, moved.id);
      }
    }
  }

  /** A removal step keeps every live record mirrored and retires record `i` of `u`. */
  lemma UnlinkKeepsDraining<A, B>(g: Bipartite<A, B>, u: A, i: nat)
    requires u in g.left && i < |g.left[u]| && Draining(g, u, i)
    ensures UnlinkDefined(g, u, i)
    ensures g.right[g.left[u][i].peer][g.left[u][i].id].peer == u
    ensures Draining(Unlink(g, u, i), u, i + 1)
  {
    var v, id := g.left[u][i].peer, g.left[u][i].id;
    assert Backed(g.left, g.right, u, i);
    var moved := g.right[v][|g.right[v]| - 1];
    assert Backed(g.right, g.left, v, |g.right[v]| - 1);
    var r := Unlink(g, u, i);
    UnlinkPointwise(g, u, i);
    assert g.left[moved.peer][moved.id] == Link(v, |g.right[v]| - 1);
    assert UnlinkStep(g, r, u, i, v, id, moved);
    UnlinkKeepsLeft(g, r, u, i, v, id, moved);
    UnlinkKeepsRight(g, r, u, i, v, id, moved);
    assert Draining(r, u, i + 1);
  }

  /**
   Processes records `i`, `i + 1`, ... of the left endpoint `u`, re-reading
   each record from the current state: an earlier step may have rewritten the
   back-index of a later record of `u` (two edges to the same peer).
   */
  function DisconnectFrom<A, B>(g: Bipartite<A, B>, u: A, i: nat): (r: Bipartite<A, B>)
    requires u in g.left && i <= |g.left[u]| && Draining(g, u, i)
    ensures r.left.Keys == g.left.Keys && r.right.Keys == g.right.Keys
    ensures |r.left[u]| == |g.left[u]| && Draining(r, u, |g.left[u]|)
    ensures forall t :: t in g.left ==> Peers(r.left[t]) == Peers(g.left[t])
    decreases |g.left[u]| - i
  {
    if i == |g.left[u]| then g
    else
      UnlinkKeepsDraining(g, u, i);
      DisconnectFrom(Unlink(g, u, i), u, i + 1)
  }

  /**
   How the right lists of `r` relate to those of `g` when `r` is the state
   after walking records `i`, `i + 1`, ... of `u`: records naming `u` are
   removed, one per walked record, and no other record is.
   */
  ghost predicate WalkCounts<A(!new), B(!new)>(g: Bipartite<A, B>, u: A, i: nat, r: Bipartite<A, B>)
    requires u in g.left && i <= |g.left[u]| && r.right.Keys == g.right.Keys
  {
    && (forall x, t :: x in g.right && t != u ==> EdgesTo(r.right[x], t) == EdgesTo(g.right[x], t))
    && (forall x :: x in g.right ==> EdgesTo(r.right[x], u) + EdgesTo(g.left[u][i..], x) == EdgesTo(g.right[x], u))
    && (forall x :: x in g.right ==> |r.right[x]| + EdgesTo(g.left[u][i..], x) == |g.right[x]|)
  }

  lemma {:induction false} DisconnectFromCounts<A(!new), B(!new)>(g: Bipartite<A, B>, u: A, i: nat)
    requires u in g.left && i <= |g.left[u]| && Draining(g, u, i)
    ensures WalkCounts(g, u, i, DisconnectFrom(g, u, i))
    decreases |g.left[u]| - i
  {
    if i == |g.left[u]| {
      assert g.left[u][i..] == [];
    } else {
      UnlinkKeepsDraining(g, u, i);
      var next := Unlink(g, u, i);
      var after := DisconnectFrom(next, u, i + 1);
      assert DisconnectFrom(g, u, i) == after;
      DisconnectFromCounts(next, u, i + 1);
      WalkCountsStep(g, u, i, after);
    }
  }

  lemma WalkCountsStep<A(!new), B(!new)>(g: Bipartite<A, B>, u: A, i: nat, after: Bipartite<A, B>)
    requires u in g.left && i < |g.left[u]| && Draining(g, u, i) && UnlinkDefined(g, u, i)
    requires after.right.Keys == g.right.Keys
    requires WalkCounts(Unlink(g, u, i), u, i + 1, after)
    ensures WalkCounts(g, u, i, after)
  {
    UnlinkKeepsDraining(g, u, i);
    var next := Unlink(g, u, i);
    EdgesToSuffix(g.left[u], i);
    SamePeersSameSuffixEdges(next.left[u], g.left[u], i + 1);
    UnlinkStepCounts(g.right, next.right, after.right, u, g.left[u][i].peer, g.left[u][i..], next.left[u][i + 1..]);
  }

  /** The arithmetic that chains one removal step to the rest of the walk. */
  lemma UnlinkStepCounts<A, B>(before: map<B, seq<Link<A>>>, next: map<B, seq<Link<A>>>, after: map<B, seq<Link<A>>>,
                               u: A, v: B, todo: seq<Link<B>>, rest: seq<Link<B>>)
    requires next.Keys == before.Keys && after.Keys == before.Keys && v in before
    requires forall x :: x in before && x != v ==> next[x] == before[x]
    requires |next[v]| == |before[v]| - 1
    requires multiset(Peers(next[v])) == multiset(Peers(before[v])) - multiset{u} && u in multiset(Peers(before[v]))
    requires forall x :: EdgesTo(todo, x) == EdgesTo(rest, x) + (if v == x then 1 else 0)
    requires forall x, t :: x in next && t != u ==> EdgesTo(after[x], t) == EdgesTo(next[x], t)
    requires forall x :: x in next ==> EdgesTo(after[x], u) + EdgesTo(rest, x) == EdgesTo(next[x], u)
    requires forall x :: x in next ==> |after[x]| + EdgesTo(rest, x) == |next[x]|
    ensures forall x, t :: x in before && t != u ==> EdgesTo(after[x], t) == EdgesTo(before[x], t)
    ensures forall x :: x in before ==> EdgesTo(after[x], u) + EdgesTo(todo, x) == EdgesTo(before[x], u)
    ensures forall x :: x in before ==> |after[x]| + EdgesTo(todo, x) == |before[x]|
  {
    forall x | x in before
      ensures forall t :: t != u ==> EdgesTo(after[x], t) == EdgesTo(before[x], t)
      ensures EdgesTo(after[x], u) + EdgesTo(todo, x) == EdgesTo(before[x], u)
      ensures |after[x]| + EdgesTo(todo, x) == |before[x]|
    {
      if x == v {
        assert EdgesTo(next[v], u) + 1 == EdgesTo(before[v], u);
        assert forall t :: t != u ==> EdgesTo(next[v], t) == EdgesTo(before[v], t);
      } else {
        assert next[x] == before[x];
      }
    }
  }

  /** None of the records `i`, `i + 1`, ... of the list `s` names `x`. */
  ghost predicate AvoidsFrom<P>(s: seq<Link<P>>, i: nat, x: P)
  {
    forall k :: i <= k < |s| ==> s[k].peer != x
  }

  /**
   A right endpoint that none of the records `i`, `i + 1`, ... of `u` names is
   never written by the walk: each step writes only the peer of its record
   and the left list of the moved record.
   */
  lemma {:induction false} DisconnectFromFrame<A, B>(g: Bipartite<A, B>, u: A, i: nat, x: B)
    requires u in g.left && i <= |g.left[u]| && Draining(g, u, i) && x in g.right
    requires AvoidsFrom(g.left[u], i, x)
    ensures DisconnectFrom(g, u, i).right[x] == g.right[x]
    decreases |g.left[u]| - i
  {
    if i < |g.left[u]| {
      UnlinkKeepsDraining(g, u, i);
      var next := Unlink(g, u, i);
      var after := DisconnectFrom(next, u, i + 1);
      assert DisconnectFrom(g, u, i) == after;
      UnlinkFrame(g, u, i, x);
      DisconnectFromFrame(next, u, i + 1, x);
    }
  }

  /** One removal step whose record does not name `x` leaves `x`'s list alone and keeps the rest of the walk away from `x`. */
  lemma UnlinkFrame<A, B>(g: Bipartite<A, B>, u: A, i: nat, x: B)
    requires u in g.left && i < |g.left[u]| && UnlinkDefined(g, u, i) && x in g.right
    requires AvoidsFrom(g.left[u], i, x)
    ensures Unlink(g, u, i).right[x] == g.right[x]
    ensures |Unlink(g, u, i).left[u]| == |g.left[u]| && AvoidsFrom(Unlink(g, u, i).left[u], i + 1, x)
  {
    var next := Unlink(g, u, i);
    assert g.left[u][i].peer != x;
    forall k | i + 1 <= k < |next.left[u]|
      ensures next.left[u][k].peer != x
    {
      assert Peers(next.left[u])[k] == Peers(g.left[u])[k];
    }
  }

  /** A list with no edge to `p` has no record naming `p`. */
  lemma NoEdgesNoRecord<P>(s: seq<Link<P>>, p: P)
    requires EdgesTo(s, p) == 0
    ensures forall k :: 0 <= k < |s| ==> s[k].peer != p
  {
    forall k | 0 <= k < |s|
      ensures s[k].peer != p
    {
      assert Peers(s)[k] in multiset(Peers(s));
    }
  }

  /** After the last step no right record points at `u`, and emptying `u`'s list restores the invariant. */
  lemma DrainedClears<A, B>(d: Bipartite<A, B>, u: A)
    requires u in d.left && Draining(d, u, |d.left[u]|)
    ensures forall x, j :: x in d.right && 0 <= j < |d.right[x]| ==> d.right[x][j].peer != u
    ensures forall x :: x in d.right ==> EdgesTo(d.right[x], u) == 0
    ensures MirrorInv(Bipartite(d.left[u := []], d.right))
  {
    var c := Bipartite(d.left[u := []], d.right);
    forall x, j | x in d.right && 0 <= j < |d.right[x]|
      ensures d.right[x][j].peer != u && Backed(c.right, c.left, x, j)
    {
      assert Backed(d.right, d.left, x, j) && LiveTarget(d, u, |d.left[u]|, x, j);
    }
    forall x | x in d.right
      ensures EdgesTo(d.right[x], u) == 0
    {
      assert u !in Peers(d.right[x]);
    }
    forall t, k | t in c.left && 0 <= k < |c.left[t]|
      ensures Backed(c.left, c.right, t, k)
    {
      assert Backed(d.left, d.right, t, k);
    }
  }

  /**
   Disconnects the left endpoint `u` from everything: its list ends empty,
   every right list loses exactly its records naming `u`, and the invariant holds.
   */
  function DisconnectAll<A(!new), B(!new)>(g: Bipartite<A, B>, u: A): (r: Bipartite<A, B>)
    requires MirrorInv(g) && u in g.left
    ensures r.left.Keys == g.left.Keys && r.right.Keys == g.right.Keys
    ensures r.left[u] == [] && MirrorInv(r)
    ensures forall t :: t in g.left && t != u ==> Peers(r.left[t]) == Peers(g.left[t])
    ensures forall x, j :: x in r.right && 0 <= j < |r.right[x]| ==> r.right[x][j].peer != u
    ensures forall x :: x in g.right ==> EdgesTo(r.right[x], u) == 0
    ensures forall x, t :: x in g.right && t != u ==> EdgesTo(r.right[x], t) == EdgesTo(g.right[x], t)
    ensures forall x :: x in g.right ==> |r.right[x]| == |g.right[x]| - EdgesTo(g.left[u], x)
    ensures forall x :: x in g.right && EdgesTo(g.left[u], x) == 0 ==> r.right[x] == g.right[x]
    ensures g.left[u] == [] ==> r == g
  {
    MirrorInvStartsDraining(g, u);
    var drained := DisconnectFrom(g, u, 0);
    DisconnectFromCounts(g, u, 0);
    assert g.left[u][0..] == g.left[u];
    DrainedClears(drained, u);
    assert forall x :: x in g.right && EdgesTo(g.left[u], x) == 0 ==> drained.right[x] == g.right[x] by {
      forall x | x in g.right && EdgesTo(g.left[u], x) == 0
        ensures drained.right[x] == g.right[x]
      {
        NoEdgesNoRecord(g.left[u], x);
        assert AvoidsFrom(g.left[u], 0, x);
        DisconnectFromFrame(g, u, 0, x);
      }
    }
    assert g.left[u] == [] ==> drained == g && drained.left[u := []] == g.left;
    Bipartite(drained.left[u := []], drained.right)
  }

  /**
   Under the invariant both sides agree on the number of edges between a
   left endpoint and a right endpoint: a multi-edge is seen the same number
   of times from each end.
   */
  lemma EdgeCountsAgree<A(!new), B(!new)>(g: Bipartite<A, B>, u: A, v: B)
    requires MirrorInv(g) && u in g.left && v in g.right
    ensures EdgesTo(g.left[u], v) == EdgesTo(g.right[v], u)
  {
    MirrorInvStartsDraining(g, u);
    var drained := DisconnectFrom(g, u, 0);
    DisconnectFromCounts(g, u, 0);
    assert g.left[u][0..] == g.left[u];
    DrainedClears(drained, u);
  }

  // ---------------------------------------------------------------------
  // copy
  // ---------------------------------------------------------------------

  /**
   For each record `i`, `i + 1`, ... of the right endpoint `o`, its peer is
   connected to the right endpoint `t`. The list of `o` is read live; it does
   not change because `o` and `t` differ.
   */
  function ConnectFrom<A, B>(g: Bipartite<A, B>, o: B, t: B, i: nat): (r: Bipartite<A, B>)
    requires o in g.right && t in g.right && o != t && i <= |g.right[o]|
    requires forall j :: i <= j < |g.right[o]| ==> g.right[o][j].peer in g.left
    ensures r.left.Keys == g.left.Keys && r.right.Keys == g.right.Keys
    ensures r.right[o] == g.right[o]
    ensures forall x :: x in g.right && x != t ==> r.right[x] == g.right[x]
    ensures MirrorInv(g) ==> MirrorInv(r)
    decreases |g.right[o]| - i
  {
    if i == |g.right[o]| then g
    else ConnectFrom(Connect(g, g.right[o][i].peer, t), o, t, i + 1)
  }

  /**
   How the lists of `r` relate to those of `g` when `r` is the state after
   re-issuing connects for records `i`, `i + 1`, ... of `o` onto `t`: the list
   of `t` is extended by those records' peers in order, and each left endpoint
   keeps its records and gains one record naming `t` per edge it had to `o`.
   */
  ghost predicate CopiedOnto<A(!new), B(!new)>(g: Bipartite<A, B>, o: B, t: B, i: nat, r: Bipartite<A, B>)
    requires o in g.right && t in g.right && i <= |g.right[o]|
    requires r.left.Keys == g.left.Keys && r.right.Keys == g.right.Keys
  {
    && |g.right[t]| <= |r.right[t]|
    && r.right[t][..|g.right[t]|] == g.right[t]
    && Peers(r.right[t]) == Peers(g.right[t]) + Peers(g.right[o])[i..]
    && (forall s :: s in g.left ==>
          && |r.left[s]| == |g.left[s]| + EdgesTo(g.right[o][i..], s)
          && r.left[s][..|g.left[s]|] == g.left[s])
    && (forall s, k :: s in g.left && |g.left[s]| <= k < |r.left[s]| ==> r.left[s][k].peer == t)
  }

  lemma {:induction false} ConnectFromCopies<A(!new), B(!new)>(g: Bipartite<A, B>, o: B, t: B, i: nat)
    requires o in g.right && t in g.right && o != t && i <= |g.right[o]|
    requires forall j :: i <= j < |g.right[o]| ==> g.right[o][j].peer in g.left
    ensures CopiedOnto(g, o, t, i, ConnectFrom(g, o, t, i))
    decreases |g.right[o]| - i
  {
    if i == |g.right[o]| {
      assert g.right[o][i..] == [];
    } else {
      var next := Connect(g, g.right[o][i].peer, t);
      ConnectFromCopies(next, o, t, i + 1);
      CopiedOntoStep(g, o, t, i, ConnectFrom(next, o, t, i + 1));
    }
  }

  lemma CopiedOntoStep<A(!new), B(!new)>(g: Bipartite<A, B>, o: B, t: B, i: nat, r: Bipartite<A, B>)
    requires o in g.right && t in g.right && o != t && i < |g.right[o]| && g.right[o][i].peer in g.left
    requires r.left.Keys == g.left.Keys && r.right.Keys == g.right.Keys
    requires CopiedOnto(Connect(g, g.right[o][i].peer, t), o, t, i + 1, r)
    ensures CopiedOnto(g, o, t, i, r)
  {
    var s0 := g.right[o][i].peer;
    var next := Connect(g, s0, t);
    EdgesToSuffix(g.right[o], i);
    CopiedOntoTarget(g, o, t, i, r);
    forall s | s in g.left
      ensures && |r.left[s]| == |g.left[s]| + EdgesTo(g.right[o][i..], s)
              && r.left[s][..|g.left[s]|] == g.left[s]
    {
      assert r.left[s][..|next.left[s]|] == next.left[s];
      assert next.left[s][..|g.left[s]|] == g.left[s];
    }
    forall s, k | s in g.left && |g.left[s]| <= k < |r.left[s]|
      ensures r.left[s][k].peer == t
    {
      if k < |next.left[s]| {
        assert r.left[s][k] == next.left[s][k];
      }
    }
  }

  /** The list of the target `t` in one step of `CopiedOntoStep`. */
  lemma CopiedOntoTarget<A(!new), B(!new)>(g: Bipartite<A, B>, o: B, t: B, i: nat, r: Bipartite<A, B>)
    requires o in g.right && t in g.right && o != t && i < |g.right[o]| && g.right[o][i].peer in g.left
    requires r.left.Keys == g.left.Keys && r.right.Keys == g.right.Keys
    requires CopiedOnto(Connect(g, g.right[o][i].peer, t), o, t, i + 1, r)
    ensures |g.right[t]| <= |r.right[t]| && r.right[t][..|g.right[t]|] == g.right[t]
    ensures Peers(r.right[t]) == Peers(g.right[t]) + Peers(g.right[o])[i..]
  {
    var s0 := g.right[o][i].peer;
    var next := Connect(g, s0, t);
    SliceCons(Peers(g.right[o]), i);
    assert next.right[t] == g.right[t] + [Link(s0, |g.left[s0]|)];
    assert Peers(next.right[t]) == Peers(g.right[t]) + [s0];
    assert Peers(g.right[t]) + [s0] + Peers(g.right[o])[i + 1..] == Peers(g.right[t]) + Peers(g.right[o])[i..];
    assert r.right[t][..|next.right[t]|] == next.right[t];
    assert r.right[t][..|g.right[t]|] == g.right[t];
  }

  // ---------------------------------------------------------------------
  // removal of an endpoint
  // ---------------------------------------------------------------------

  /** An endpoint whose list is empty and that no record names can be dropped without breaking the invariant. */
  lemma DropUnnamed<A, B>(g: Bipartite<A, B>, u: A)
    requires MirrorInv(g) && u in g.left && g.left[u] == []
    requires forall x, j :: x in g.right && 0 <= j < |g.right[x]| ==> g.right[x][j].peer != u
    ensures MirrorInv(Bipartite(g.left - {u}, g.right))
  {
    var d := Bipartite(g.left - {u}, g.right);
    forall t, k | t in d.left && 0 <= k < |d.left[t]|
      ensures Backed(d.left, d.right, t, k)
    {
      assert Backed(g.left, g.right, t, k);
    }
    forall x, j | x in d.right && 0 <= j < |d.right[x]|
      ensures Backed(d.right, d.left, x, j)
    {
      assert Backed(g.right, g.left, x, j);
    }
  }
}

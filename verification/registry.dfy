/**
 Slots and signals of one delegate type, with the operations of their public
 interface: connect, disconnect, connected, copy construction, assignment and
 destruction. Objects are named by ids instead of addresses; a `Slot`'s list
 is the left side of the connection store and a `Signal`'s list the right side.
 */
module SignalSlot {
  import opened Links

  /** The identity of a `Slot` object. */
  datatype SlotId = SlotId(n: nat)

  /** The identity of a `Signal` object. */
  datatype SigId = SigId(n: nat)

  /** Every live slot and signal of one delegate type `C`, with each slot's `call`. */
  datatype Registry<C> = Registry(links: Bipartite<SlotId, SigId>, calls: map<SlotId, C>)

  /** The mutual index invariant, and exactly the live slots carry a `call`. */
  ghost predicate Valid<C>(r: Registry<C>)
  {
    MirrorInv(r.links) && r.calls.Keys == r.links.left.Keys
  }

  /** A registry with no slots and no signals. */
  function Empty<C>(): (r: Registry<C>)
    ensures Valid(r)
  {
    Registry(Bipartite(map[], map[]), map[])
  }

  // ---------------------------------------------------------------------
  // construction
  // ---------------------------------------------------------------------

  /** A default-constructed `Slot` `s` whose `call` has been set: no connections. */
  function NewSlot<C>(r: Registry<C>, s: SlotId, call: C): (r': Registry<C>)
    requires s !in r.links.left
    ensures r'.links.left.Keys == r.links.left.Keys + {s} && r'.links.right == r.links.right
    ensures r'.links.left[s] == [] && s in r'.calls && r'.calls[s] == call
    ensures forall t :: t in r.links.left ==> r'.links.left[t] == r.links.left[t]
    ensures forall t :: t in r.calls && t != s ==> t in r'.calls && r'.calls[t] == r.calls[t]
    ensures Valid(r) ==> Valid(r')
  {
    var r' := Registry(Bipartite(r.links.left[s := []], r.links.right), r.calls[s := call]);
    assert Valid(r) ==> MirrorInv(r'.links) by {
      if Valid(r) {
        forall t, k | t in r'.links.left && 0 <= k < |r'.links.left[t]|
          ensures Backed(r'.links.left, r'.links.right, t, k)
        {
          assert Backed(r.links.left, r.links.right, t, k);
        }
        forall x, j | x in r'.links.right && 0 <= j < |r'.links.right[x]|
          ensures Backed(r'.links.right, r'.links.left, x, j)
        {
          assert Backed(r.links.right, r.links.left, x, j);
        }
      }
    }
    r'
  }

  /** A default-constructed `Signal` `g`: no connections. */
  function NewSignal<C>(r: Registry<C>, g: SigId): (r': Registry<C>)
    requires g !in r.links.right
    ensures r'.links.right.Keys == r.links.right.Keys + {g} && r'.links.left == r.links.left
    ensures r'.links.right[g] == [] && r'.calls == r.calls
    ensures forall x :: x in r.links.right ==> r'.links.right[x] == r.links.right[x]
    ensures Valid(r) ==> Valid(r')
  {
    var r' := Registry(Bipartite(r.links.left, r.links.right[g := []]), r.calls);
    assert Valid(r) ==> MirrorInv(r'.links) by {
      if Valid(r) {
        forall t, k | t in r'.links.left && 0 <= k < |r'.links.left[t]|
          ensures Backed(r'.links.left, r'.links.right, t, k)
        {
          assert Backed(r.links.left, r.links.right, t, k);
        }
        forall x, j | x in r'.links.right && 0 <= j < |r'.links.right[x]|
          ensures Backed(r'.links.right, r'.links.left, x, j)
        {
          assert Backed(r.links.right, r.links.left, x, j);
        }
      }
    }
    r'
  }

  // ---------------------------------------------------------------------
  // connect, disconnect, connected
  // ---------------------------------------------------------------------

  /**
   `Slot::connect`: one more edge between slot `s` and signal `g`, seen from
   both ends; records already present stay where they are.
   */
  function SlotConnect<C>(r: Registry<C>, s: SlotId, g: SigId): (r': Registry<C>)
    requires s in r.links.left && g in r.links.right
    ensures r'.links.left.Keys == r.links.left.Keys && r'.links.right.Keys == r.links.right.Keys
    ensures r'.calls == r.calls && (Valid(r) ==> Valid(r'))
    ensures |r'.links.left[s]| == |r.links.left[s]| + 1 && r'.links.left[s][..|r.links.left[s]|] == r.links.left[s]
    ensures |r'.links.right[g]| == |r.links.right[g]| + 1 && r'.links.right[g][..|r.links.right[g]|] == r.links.right[g]
    ensures r'.links.left[s][|r.links.left[s]|].peer == g && r'.links.right[g][|r.links.right[g]|].peer == s
    ensures EdgesTo(r'.links.left[s], g) == EdgesTo(r.links.left[s], g) + 1
    ensures EdgesTo(r'.links.right[g], s) == EdgesTo(r.links.right[g], s) + 1
    ensures forall t :: t in r.links.left && t != s ==> r'.links.left[t] == r.links.left[t]
    ensures forall x :: x in r.links.right && x != g ==> r'.links.right[x] == r.links.right[x]
  {
    var links := Connect(r.links, s, g);
    AppendOneEdge(r.links.left[s], links.left[s], g);
    AppendOneEdge(r.links.right[g], links.right[g], s);
    r.(links := links)
  }

  /**
   `Slot::connected`: whether the slot's list is non-empty. In a valid
   registry that is exactly when some signal's list names the slot.
   */
  function SlotConnected<C>(r: Registry<C>, s: SlotId): (b: bool)
    requires s in r.links.left
    ensures Valid(r) ==> (b <==> exists g :: g in r.links.right && EdgesTo(r.links.right[g], s) > 0)
  {
    NamedIffListed(r.links, s);
    |r.links.left[s]| != 0
  }

  /**
   `Signal::connected`: whether the signal's list is non-empty. In a valid
   registry that is exactly when some slot's list names the signal.
   */
  function SignalConnected<C>(r: Registry<C>, g: SigId): (b: bool)
    requires g in r.links.right
    ensures Valid(r) ==> (b <==> exists s :: s in r.links.left && EdgesTo(r.links.left[s], g) > 0)
  {
    FlipMirrorInv(r.links);
    NamedIffListed(Flip(r.links), g);
    |r.links.right[g]| != 0
  }

  /**
   `Slot::disconnect`: the slot's list ends empty; every signal loses exactly
   its edges to the slot and keeps its edges to every other slot; the other
   slots keep their signals in the same order. On an unconnected slot it
   changes nothing.
   */
  function SlotDisconnect<C>(r: Registry<C>, s: SlotId): (r': Registry<C>)
    requires Valid(r) && s in r.links.left
    ensures Valid(r') && r'.calls == r.calls
    ensures r'.links.left.Keys == r.links.left.Keys && r'.links.right.Keys == r.links.right.Keys
    ensures !SlotConnected(r', s)
    ensures forall t :: t in r.links.left && t != s ==> Peers(r'.links.left[t]) == Peers(r.links.left[t])
    ensures forall g :: g in r.links.right ==> EdgesTo(r'.links.right[g], s) == 0
    ensures forall g, t :: g in r.links.right && t != s ==> EdgesTo(r'.links.right[g], t) == EdgesTo(r.links.right[g], t)
    ensures forall g :: g in r.links.right ==> |r'.links.right[g]| == |r.links.right[g]| - EdgesTo(r.links.left[s], g)
    ensures forall g :: g in r.links.right && EdgesTo(r.links.left[s], g) == 0 ==> r'.links.right[g] == r.links.right[g]
    ensures !SlotConnected(r, s) ==> r' == r
  {
    r.(links := DisconnectAll(r.links, s))
  }

  /**
   `Signal::disconnect`: the mirror image of `SlotDisconnect`, run on the
   store seen from the signal side.
   */
  function SignalDisconnect<C>(r: Registry<C>, g: SigId): (r': Registry<C>)
    requires Valid(r) && g in r.links.right
    ensures Valid(r') && r'.calls == r.calls
    ensures r'.links.left.Keys == r.links.left.Keys && r'.links.right.Keys == r.links.right.Keys
    ensures !SignalConnected(r', g)
    ensures forall x :: x in r.links.right && x != g ==> Peers(r'.links.right[x]) == Peers(r.links.right[x])
    ensures forall s :: s in r.links.left ==> EdgesTo(r'.links.left[s], g) == 0
    ensures forall s, k :: s in r'.links.left && 0 <= k < |r'.links.left[s]| ==> r'.links.left[s][k].peer != g
    ensures forall s, x :: s in r.links.left && x != g ==> EdgesTo(r'.links.left[s], x) == EdgesTo(r.links.left[s], x)
    ensures forall s :: s in r.links.left ==> |r'.links.left[s]| == |r.links.left[s]| - EdgesTo(r.links.right[g], s)
    ensures forall s :: s in r.links.left && EdgesTo(r.links.right[g], s) == 0 ==> r'.links.left[s] == r.links.left[s]
    ensures !SignalConnected(r, g) ==> r' == r
  {
    FlipMirrorInv(r.links);
    var flipped := DisconnectAll(Flip(r.links), g);
    FlipMirrorInv(flipped);
    r.(links := Flip(flipped))
  }

  /**
   Disconnecting a slot right after connecting it leaves every signal with the
   same edge counts, and every slot with the same signals in the same order,
   as disconnecting it without the connect.
   */
  lemma DisconnectUndoesConnect<C>(r: Registry<C>, s: SlotId, g: SigId)
    requires Valid(r) && s in r.links.left && g in r.links.right
    ensures var a, b := SlotDisconnect(SlotConnect(r, s, g), s), SlotDisconnect(r, s);
            && a.links.left.Keys == b.links.left.Keys && a.links.right.Keys == b.links.right.Keys
            && (forall t :: t in a.links.left ==> Peers(a.links.left[t]) == Peers(b.links.left[t]))
            && (forall x, t :: x in a.links.right ==> EdgesTo(a.links.right[x], t) == EdgesTo(b.links.right[x], t))
  {
    var c := SlotConnect(r, s, g);
    AppendOneEdge(r.links.right[g], c.links.right[g], s);
    SameCountsAfterDisconnect(r, c, s);
  }

  /** Two registries whose signals agree on edge counts to every slot but `s` agree after `s` disconnects. */
  lemma SameCountsAfterDisconnect<C>(r: Registry<C>, c: Registry<C>, s: SlotId)
    requires Valid(r) && Valid(c) && s in r.links.left
    requires c.links.left.Keys == r.links.left.Keys && c.links.right.Keys == r.links.right.Keys
    requires forall t :: t in r.links.left && t != s ==> c.links.left[t] == r.links.left[t]
    requires forall x, t :: x in r.links.right && t != s ==> EdgesTo(c.links.right[x], t) == EdgesTo(r.links.right[x], t)
    ensures var a, b := SlotDisconnect(c, s), SlotDisconnect(r, s);
            && a.links.left.Keys == b.links.left.Keys && a.links.right.Keys == b.links.right.Keys
            && (forall t :: t in a.links.left ==> Peers(a.links.left[t]) == Peers(b.links.left[t]))
            && (forall x, t :: x in a.links.right ==> EdgesTo(a.links.right[x], t) == EdgesTo(b.links.right[x], t))
  {
    var a, b := SlotDisconnect(c, s), SlotDisconnect(r, s);
    forall t | t in a.links.left
      ensures Peers(a.links.left[t]) == Peers(b.links.left[t])
    {
      if t == s {
        assert a.links.left[t] == b.links.left[t];
      }
    }
    forall x, t | x in a.links.right
      ensures EdgesTo(a.links.right[x], t) == EdgesTo(b.links.right[x], t)
    {
      if t == s {
        assert EdgesTo(a.links.right[x], t) == 0 == EdgesTo(b.links.right[x], t);
      }
    }
  }

  /** Disconnecting twice is the same as disconnecting once. */
  lemma SlotDisconnectIdempotent<C>(r: Registry<C>, s: SlotId)
    requires Valid(r) && s in r.links.left
    ensures SlotDisconnect(SlotDisconnect(r, s), s) == SlotDisconnect(r, s)
  {
  }

  lemma SignalDisconnectIdempotent<C>(r: Registry<C>, g: SigId)
    requires Valid(r) && g in r.links.right
    ensures SignalDisconnect(SignalDisconnect(r, g), g) == SignalDisconnect(r, g)
  {
  }

  // ---------------------------------------------------------------------
  // copy and assignment
  // ---------------------------------------------------------------------

  /**
   `Signal::operator=`: for every edge of `o`, the slot at its far end is
   connected to `t`. The edges `t` already had are kept, so edges accumulate;
   `o` is left as it was; assigning a signal to itself changes nothing.
   */
  function SignalAssign<C>(r: Registry<C>, t: SigId, o: SigId): (r': Registry<C>)
    requires Valid(r) && t in r.links.right && o in r.links.right
    ensures Valid(r') && r'.calls == r.calls
    ensures r'.links.left.Keys == r.links.left.Keys && r'.links.right.Keys == r.links.right.Keys
    ensures t == o ==> r' == r
    ensures r'.links.right[o] == r.links.right[o]
    ensures forall x :: x in r.links.right && x != t ==> r'.links.right[x] == r.links.right[x]
    ensures t != o ==> Peers(r'.links.right[t]) == Peers(r.links.right[t]) + Peers(r.links.right[o])
    ensures |r.links.right[t]| <= |r'.links.right[t]| && r'.links.right[t][..|r.links.right[t]|] == r.links.right[t]
    ensures forall s :: s in r.links.left ==>
      && |r'.links.left[s]| == |r.links.left[s]| + (if t == o then 0 else EdgesTo(r.links.right[o], s))
      && r'.links.left[s][..|r.links.left[s]|] == r.links.left[s]
    ensures forall s, k :: s in r.links.left && |r.links.left[s]| <= k < |r'.links.left[s]| ==> r'.links.left[s][k].peer == t
  {
    if t == o then r
    else
      PeersAreLive(r.links, o);
      ConnectFromCopies(r.links, o, t, 0);
      assert r.links.right[o][0..] == r.links.right[o];
      assert Peers(r.links.right[o])[0..] == Peers(r.links.right[o]);
      r.(links := ConnectFrom(r.links, o, t, 0))
  }

  /**
   `Signal`'s copy constructor: a new signal `t` holding one edge for every
   edge of `o`, to the same slots in the same order; `o` is left as it was.
   */
  function SignalCopy<C>(r: Registry<C>, o: SigId, t: SigId): (r': Registry<C>)
    requires Valid(r) && o in r.links.right && t !in r.links.right
    ensures Valid(r') && r'.calls == r.calls
    ensures r'.links.left.Keys == r.links.left.Keys && r'.links.right.Keys == r.links.right.Keys + {t}
    ensures Peers(r'.links.right[t]) == Peers(r.links.right[o])
    ensures forall x :: x in r.links.right ==> r'.links.right[x] == r.links.right[x]
    ensures forall s :: s in r.links.left ==>
      && |r'.links.left[s]| == |r.links.left[s]| + EdgesTo(r.links.right[o], s)
      && r'.links.left[s][..|r.links.left[s]|] == r.links.left[s]
    ensures forall s, k :: s in r.links.left && |r.links.left[s]| <= k < |r'.links.left[s]| ==> r'.links.left[s][k].peer == t
  {
    SignalAssign(NewSignal(r, t), t, o)
  }

  /**
   `Slot::operator=`: the loop re-issues a connect for every record of the
   target's OWN list, and then the callable is copied. Only the case where
   that list is empty is modelled (otherwise the loop appends to the vector
   it is walking), so the target ends with the source's `call` and no new edges.
   */
  function SlotAssign<C>(r: Registry<C>, t: SlotId, o: SlotId): (r': Registry<C>)
    requires Valid(r) && t in r.links.left && o in r.links.left
    requires t != o ==> r.links.left[t] == []
    ensures Valid(r') && r'.links == r.links
    ensures r'.calls[t] == r.calls[o]
    ensures forall x :: x in r.calls && x != t ==> r'.calls[x] == r.calls[x]
    ensures t == o ==> r' == r
  {
    if t == o then r
    else r.(calls := r.calls[t := r.calls[o]])
  }

  /**
   `Slot`'s copy constructor as written: a default-constructed slot assigned
   from `o`. It gets `o`'s `call` and no connections at all; `o` keeps its edges.
   */
  function SlotCopy<C>(r: Registry<C>, o: SlotId, t: SlotId): (r': Registry<C>)
    requires Valid(r) && o in r.links.left && t !in r.links.left
    ensures Valid(r')
    ensures r'.links.left.Keys == r.links.left.Keys + {t} && r'.links.right == r.links.right
    ensures !SlotConnected(r', t) && r'.calls[t] == r.calls[o]
    ensures forall s :: s in r.links.left ==> r'.links.left[s] == r.links.left[s] && r'.calls[s] == r.calls[s]
  {
    SlotAssign(NewSlot(r, t, r.calls[o]), t, o)
  }

  /** The copy of a connected slot is not connected to anything. */
  lemma SlotCopyDropsEdges<C>(r: Registry<C>, o: SlotId, t: SlotId, g: SigId)
    requires Valid(r) && o in r.links.left && t !in r.links.left && g in r.links.right
    requires EdgesTo(r.links.left[o], g) > 0
    ensures EdgesTo(SlotCopy(r, o, t).links.left[t], g) == 0
    ensures EdgesTo(SlotCopy(r, o, t).links.left[o], g) > 0
  {
    assert SlotCopy(r, o, t).links.left[t] == [];
    var none: seq<Link<SigId>> := [];
    assert Peers(none) == [];
  }

  /**
   The copy constructor as evidently intended: a new slot `t` with `o`'s
   `call` and one edge for every edge of `o`, to the same signals in the same
   order. `o` is left as it was; each signal gains one record naming `t` per
   edge it has to `o`.
   */
  function SlotCopyIntended<C>(r: Registry<C>, o: SlotId, t: SlotId): (r': Registry<C>)
    requires Valid(r) && o in r.links.left && t !in r.links.left
    ensures Valid(r')
    ensures r'.links.left.Keys == r.links.left.Keys + {t} && r'.links.right.Keys == r.links.right.Keys
    ensures r'.calls[t] == r.calls[o]
    ensures Peers(r'.links.left[t]) == Peers(r.links.left[o])
    ensures forall s :: s in r.links.left ==> r'.links.left[s] == r.links.left[s] && r'.calls[s] == r.calls[s]
    ensures forall g :: g in r.links.right ==>
      && |r'.links.right[g]| == |r.links.right[g]| + EdgesTo(r.links.left[o], g)
      && r'.links.right[g][..|r.links.right[g]|] == r.links.right[g]
    ensures forall g, k :: g in r.links.right && |r.links.right[g]| <= k < |r'.links.right[g]| ==> r'.links.right[g][k].peer == t
  {
    var blank := NewSlot(r, t, r.calls[o]);
    var view := Flip(blank.links);
    FlipMirrorInv(blank.links);
    PeersAreLive(view, o);
    ConnectFromCopies(view, o, t, 0);
    assert blank.links.left[o][0..] == blank.links.left[o];
    assert Peers(blank.links.left[o])[0..] == Peers(blank.links.left[o]);
    var copied := ConnectFrom(view, o, t, 0);
    FlipMirrorInv(copied);
    blank.(links := Flip(copied))
  }

  /** With the intended copy, disconnecting the original leaves the copy's edges in place. */
  lemma SlotCopyIntendedIsIndependent<C>(r: Registry<C>, o: SlotId, t: SlotId)
    requires Valid(r) && o in r.links.left && t !in r.links.left
    ensures var c := SlotCopyIntended(r, o, t);
            Peers(SlotDisconnect(c, o).links.left[t]) == Peers(r.links.left[o])
  {
  }

  // ---------------------------------------------------------------------
  // destruction
  // ---------------------------------------------------------------------

  /**
   `Slot`'s destructor: disconnect, then the slot is gone. No list of any
   remaining signal names it afterwards, so no handle dangles.
   */
  function SlotDestroy<C>(r: Registry<C>, s: SlotId): (r': Registry<C>)
    requires Valid(r) && s in r.links.left
    ensures Valid(r')
    ensures r'.links.left.Keys == r.links.left.Keys - {s} && r'.links.right.Keys == r.links.right.Keys
    ensures forall t :: t in r'.calls ==> t in r.calls && r'.calls[t] == r.calls[t]
    ensures forall g, j :: g in r'.links.right && 0 <= j < |r'.links.right[g]| ==> r'.links.right[g][j].peer != s
    ensures forall t :: t in r'.links.left ==> Peers(r'.links.left[t]) == Peers(r.links.left[t])
    ensures forall g, t :: g in r.links.right && t != s ==> EdgesTo(r'.links.right[g], t) == EdgesTo(r.links.right[g], t)
    ensures forall g :: g in r.links.right && EdgesTo(r.links.left[s], g) == 0 ==> r'.links.right[g] == r.links.right[g]
  {
    var d := SlotDisconnect(r, s);
    DropUnnamed(d.links, s);
    Registry(Bipartite(d.links.left - {s}, d.links.right), d.calls - {s})
  }

  /**
   `Signal`'s destructor: disconnect, then the signal is gone. No list of any
   remaining slot names it afterwards.
   */
  function SignalDestroy<C>(r: Registry<C>, g: SigId): (r': Registry<C>)
    requires Valid(r) && g in r.links.right
    ensures Valid(r') && r'.calls == r.calls
    ensures r'.links.left.Keys == r.links.left.Keys && r'.links.right.Keys == r.links.right.Keys - {g}
    ensures forall s, k :: s in r'.links.left && 0 <= k < |r'.links.left[s]| ==> r'.links.left[s][k].peer != g
    ensures forall x :: x in r'.links.right ==> Peers(r'.links.right[x]) == Peers(r.links.right[x])
    ensures forall s, x :: s in r.links.left && x != g ==> EdgesTo(r'.links.left[s], x) == EdgesTo(r.links.left[s], x)
    ensures forall s :: s in r.links.left && EdgesTo(r.links.right[g], s) == 0 ==> r'.links.left[s] == r.links.left[s]
  {
    var d := SignalDisconnect(r, g);
    FlipMirrorInv(d.links);
    DropUnnamed(Flip(d.links), g);
    FlipMirrorInv(Bipartite(d.links.left, d.links.right - {g}));
    Registry(Bipartite(d.links.left, d.links.right - {g}), d.calls)
  }
}

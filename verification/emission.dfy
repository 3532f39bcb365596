/**
 Emission: `Signal0`, `Signal1` and `Signal2` walk their list in its current
 order and invoke each connected slot's `call` with the emission's arguments.
 A `call` is an opaque value; an emission is described by the sequence of
 invocations it makes.
 */
module Emission {
  import opened Links
  import opened SignalSlot

  /** One invocation of a slot's `call` with the emission's arguments. */
  datatype Invocation<C, P> = Invocation(slot: SlotId, call: C, args: P)

  /** The slots an emission invoked, in order. */
  function InvokedSlots<C, P>(trace: seq<Invocation<C, P>>): (ss: seq<SlotId>)
    ensures |ss| == |trace|
    ensures forall k :: 0 <= k < |trace| ==> ss[k] == trace[k].slot
  {
    seq(|trace|, k requires 0 <= k < |trace| => trace[k].slot)
  }

  /** Reference description of an emission: one invocation per record of the signal's list. */
  function Trace<C, P>(r: Registry<C>, g: SigId, args: P): (trace: seq<Invocation<C, P>>)
    requires Valid(r) && g in r.links.right
  {
    var list := r.links.right[g];
    PeersAreLive(r.links, g);
    seq(|list|, k requires 0 <= k < |list| => Invocation(list[k].peer, r.calls[list[k].peer], args))
  }

  /**
   The walk over the signal's list. Every invocation passes the same
   arguments and the `call` of the slot it names; a signal with no edges
   invokes nothing.
   */
  method Emit<C, P>(r: Registry<C>, g: SigId, args: P) returns (trace: seq<Invocation<C, P>>)
    requires Valid(r) && g in r.links.right
    ensures trace == Trace(r, g, args)
    ensures InvokedSlots(trace) == Peers(r.links.right[g])
    ensures |trace| == 0 <==> !SignalConnected(r, g)
    ensures forall k :: 0 <= k < |trace| ==>
      trace[k].args == args && trace[k].slot in r.calls && trace[k].call == r.calls[trace[k].slot]
  {
    PeersAreLive(r.links, g);
    var list := r.links.right[g];
    trace := [];
    var i := 0;
    while i < |list|
      invariant 0 <= i <= |list|
      invariant trace == Trace(r, g, args)[..i]
    {
      var s := list[i].peer;
      trace := trace + [Invocation(s, r.calls[s], args)];
      i := i + 1;
    }
  }

  /** `Signal0::operator()`. */
  method Emit0<C>(r: Registry<C>, g: SigId) returns (trace: seq<Invocation<C, ()>>)
    requires Valid(r) && g in r.links.right
    ensures trace == Trace(r, g, ())
  {
    trace := Emit(r, g, ());
  }

  /** `Signal1<P>::operator()(p)`. */
  method Emit1<C, P>(r: Registry<C>, g: SigId, p: P) returns (trace: seq<Invocation<C, P>>)
    requires Valid(r) && g in r.links.right
    ensures trace == Trace(r, g, p)
  {
    trace := Emit(r, g, p);
  }

  /** `Signal2<P, R>::operator()(p, r)`. */
  method Emit2<C, P, R>(r: Registry<C>, g: SigId, p: P, q: R) returns (trace: seq<Invocation<C, (P, R)>>)
    requires Valid(r) && g in r.links.right
    ensures trace == Trace(r, g, (p, q))
  {
    trace := Emit(r, g, (p, q));
  }

  lemma TraceSlots<C, P>(r: Registry<C>, g: SigId, args: P)
    requires Valid(r) && g in r.links.right
    ensures InvokedSlots(Trace(r, g, args)) == Peers(r.links.right[g])
  {
  }

  /**
   An emission invokes each slot once per edge: as many times as the slot's
   own list names the signal.
   */
  lemma EmitOncePerEdge<C, P>(r: Registry<C>, g: SigId, s: SlotId, args: P)
    requires Valid(r) && g in r.links.right && s in r.links.left
    ensures multiset(InvokedSlots(Trace(r, g, args)))[s] == EdgesTo(r.links.left[s], g)
  {
    TraceSlots(r, g, args);
    EdgeCountsAgree(r.links, s, g);
  }

  /** Every slot of `ss` is registered in `r`. */
  ghost predicate AllSlots<C>(r: Registry<C>, ss: seq<SlotId>) {
    forall k :: 0 <= k < |ss| ==> ss[k] in r.links.left
  }

  /** Connecting the first slot keeps the rest registered. */
  lemma AllSlotsTail<C>(r: Registry<C>, ss: seq<SlotId>, g: SigId)
    requires Valid(r) && g in r.links.right && AllSlots(r, ss) && ss != []
    ensures AllSlots(SlotConnect(r, ss[0], g), ss[1..])
  {
    var next := SlotConnect(r, ss[0], g);
    forall k | 0 <= k < |ss| - 1
      ensures ss[1..][k] in next.links.left
    {
      assert ss[1..][k] == ss[k + 1];
    }
  }

  /** Connects each slot of `ss` to `g`, in order. */
  function ConnectInOrder<C>(r: Registry<C>, ss: seq<SlotId>, g: SigId): (r': Registry<C>)
    requires Valid(r) && g in r.links.right && AllSlots(r, ss)
    ensures Valid(r') && r'.links.left.Keys == r.links.left.Keys && r'.links.right.Keys == r.links.right.Keys
    decreases |ss|
  {
    if ss == [] then r
    else
      AllSlotsTail(r, ss, g);
      ConnectInOrder(SlotConnect(r, ss[0], g), ss[1..], g)
  }

  lemma AppendHeadTail<T>(a: seq<T>, s: seq<T>)
    requires s != []
    ensures a + [s[0]] + s[1..] == a + s
  {
    assert s == [s[0]] + s[1..];
  }

  /** One connect appends the slot to the signal's peers. */
  lemma ConnectAppendsPeer<C>(r: Registry<C>, s: SlotId, g: SigId)
    requires s in r.links.left && g in r.links.right
    ensures Peers(SlotConnect(r, s, g).links.right[g]) == Peers(r.links.right[g]) + [s]
  {
    var next := SlotConnect(r, s, g);
    PeersAppend(r.links.right[g], next.links.right[g], s);
  }

  lemma {:induction false} ConnectInOrderAppends<C>(r: Registry<C>, ss: seq<SlotId>, g: SigId)
    requires Valid(r) && g in r.links.right && AllSlots(r, ss)
    ensures Peers(ConnectInOrder(r, ss, g).links.right[g]) == Peers(r.links.right[g]) + ss
    decreases |ss|
  {
    if ss != [] {
      AllSlotsTail(r, ss, g);
      var next := SlotConnect(r, ss[0], g);
      assert ConnectInOrder(r, ss, g) == ConnectInOrder(next, ss[1..], g);
      ConnectInOrderAppends(next, ss[1..], g);
      ConnectAppendsPeer(r, ss[0], g);
      AppendHeadTail(Peers(r.links.right[g]), ss);
    }
  }

  /**
   While only connects happen, emission order is connection order: the
   slots connected last are invoked last, after every earlier edge.
   */
  lemma EmitInConnectionOrder<C, P>(r: Registry<C>, ss: seq<SlotId>, g: SigId, args: P)
    requires Valid(r) && g in r.links.right && AllSlots(r, ss)
    ensures InvokedSlots(Trace(ConnectInOrder(r, ss, g), g, args)) == InvokedSlots(Trace(r, g, args)) + ss
  {
    TraceSlots(r, g, args);
    TraceSlots(ConnectInOrder(r, ss, g), g, args);
    ConnectInOrderAppends(r, ss, g);
  }

  /**
   Once a slot with a single edge disconnects, the signal's last record
   fills the gap it leaves, so emission order is no longer connection order
   unless the departing record was one of the last two.
   */
  lemma DisconnectMovesLastIntoGap<C>(r: Registry<C>, s: SlotId)
    requires Valid(r) && s in r.links.left && |r.links.left[s]| == 1
    ensures var g, id := r.links.left[s][0].peer, r.links.left[s][0].id;
            && g in r.links.right && id < |r.links.right[g]|
            && var list := Peers(r.links.right[g]);
               Peers(SlotDisconnect(r, s).links.right[g]) == list[id := list[|list| - 1]][..|list| - 1]
  {
    var g, id := r.links.left[s][0].peer, r.links.left[s][0].id;
    assert Backed(r.links.left, r.links.right, s, 0);
    MirrorInvStartsDraining(r.links, s);
    UnlinkKeepsDraining(r.links, s, 0);
    var once := Unlink(r.links, s, 0);
    assert DisconnectFrom(r.links, s, 0) == DisconnectFrom(once, s, 1) == once;
    var list := r.links.right[g];
    var last := |list| - 1;
    assert once.right[g] == list[id := list[last]][..last];
    assert Peers(once.right[g]) == Peers(list)[id := Peers(list)[last]][..last];
  }
}

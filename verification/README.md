# Signal/slot connection registry

A model of `src/signalslot.h` in VDrift, a single-threaded signal/slot
mechanism. A `Slot` holds a callable `call`. A `Signal` invokes the `call` of
every slot connected to it. Each object keeps its own vector of connection
records, and each record names the object on the other side and the position
of its mirror record in that object's vector. Connecting appends one record to
each side. Disconnecting removes the mirror records by swap-with-last and then
repairs the one back-index that the swap moved. One slot and one signal can be
connected several times, and each connection is a separate edge.

The model has three modules:

- `Links` (`links.dfy`) is the connection store on its own. It is written over
  two generic endpoint kinds: left endpoints are slots and right endpoints are
  signals. `Flip` exchanges the two, so `Signal::disconnect` is the same walk
  as `Slot::disconnect` run on the flipped store. `MirrorInv` is the invariant
  that every record on either side has a mirror record pointing back at it. The
  disconnect loop is `DisconnectFrom`: it takes records of the departing
  endpoint one at a time, and each record is re-read from the current state,
  because an earlier step may have rewritten its back-index. `Draining` is the
  invariant in the middle of that walk.
- `SignalSlot` (`registry.dfy`) is the public interface of both classes over a
  `Registry`. A registry holds the store plus each slot's `call`. Objects are
  named by `SlotId`/`SigId` values, not by addresses. `Valid` is `MirrorInv`
  together with the requirement that exactly the live slots carry a `call`.
- `Emission` (`emission.dfy`) is `Signal0/1/2::operator()`. An emission is
  described by the sequence of `call` invocations it makes. The method `Emit`
  is proved equal to the reference description `Trace`.

## Model

| member | source | states |
|---|---|---|
| Links.Connect | src/signalslot.h:130-143 | One record is appended to each side and the existing records keep their positions. Each new record names the other endpoint, and its index finds the other new record, which points back at it. No other list changes, and the mirror invariant is kept. |
| Links.ConnectTwiceMakesTwoEdges | src/signalslot.h:130-143 | Connecting the same pair twice leaves two edges, counted from either side, and keeps the invariant, since `connect` never checks for an existing edge. |
| Links.Unlink | src/signalslot.h:148-160 | One loop step of `Slot::disconnect`. The mirror list loses one record, and its multiset of peers loses the peer of the mirror record, which is the departing slot during the walk. Every other right list is unchanged. The back-index fix-up changes no left list's peers. |
| Links.UnlinkKeepsDraining | src/signalslot.h:150-159 | Each swap-remove step with its back-index repair turns one more record of the departing slot into a dead record and keeps every other record mirrored. |
| Links.DisconnectFrom | src/signalslot.h:148-160 | The whole loop keeps the departing slot's list length and every slot's peers. It ends in a state where every mirror of the departing slot's records is gone and no record points at one of them. |
| Links.DisconnectFromCounts | src/signalslot.h:148-160 | After the loop, each signal has lost exactly one record naming the slot per edge the slot had to it. Counts of edges to other slots are unchanged. |
| Links.DisconnectAll | src/signalslot.h:145-162 | Loop plus `resize(0)`. The slot's list is empty, no signal record names the slot, and each signal shrinks by the slot's edge count to it. A signal the slot has no edge to keeps its list unchanged. The invariant holds, other slots keep their signals in order, and an unconnected slot changes nothing. |
| Links.DisconnectFromFrame | src/signalslot.h:148-159 | The walk never writes the list of a signal that none of the remaining records names. Each step writes only `*con.signal` and the slot of the moved record. |
| Links.EdgeCountsAgree | src/signalslot.h:43-47 | Under the invariant, a slot's list names a signal exactly as often as that signal's list names the slot. |
| Links.ConnectFrom | src/signalslot.h:181-184 | Re-issuing a connect for each record of `o` onto a distinct `t` keeps `o`'s list and every signal list other than `t`'s, and keeps the invariant. |
| Links.ConnectFromCopies | src/signalslot.h:181-184 | `t`'s list is extended by the peers of `o`'s records in order. Each slot keeps its records and gains one record naming `t` per edge it has to `o`. |
| SignalSlot.NewSlot | src/signalslot.h:55 | A new slot has an empty list and the given `call`, and nothing else changes. |
| SignalSlot.NewSignal | src/signalslot.h:33 | A new signal has an empty list, and nothing else changes. |
| SignalSlot.SlotConnect | src/signalslot.h:130-143 | `Slot::connect` adds one edge, seen from both ends, raises the edge count on both sides by one and keeps validity. |
| SignalSlot.SlotConnected | src/signalslot.h:164-168 | In a valid registry, `Slot::connected` is true exactly when some signal's list names the slot. |
| SignalSlot.SignalConnected | src/signalslot.h:214-218 | In a valid registry, `Signal::connected` is true exactly when some slot's list names the signal. |
| SignalSlot.SlotDisconnect | src/signalslot.h:145-162 | Afterwards the slot is unconnected and named by no signal. Each signal loses exactly its edges to the slot, and a signal with no edge to it keeps its list unchanged. Other slots keep their signals in order, and validity holds. |
| SignalSlot.SignalDisconnect | src/signalslot.h:195-212 | The mirror image: the signal is unconnected, no slot record names it, each slot loses exactly its edges to the signal, and a slot with no edge to it keeps its list unchanged. Other signals keep their slots in order, and validity holds. |
| SignalSlot.DisconnectUndoesConnect | src/signalslot.h:130-162 | Disconnecting right after a connect leaves every slot with the same signals in the same order, and every signal with the same edge counts, as disconnecting without the connect. The order of a signal's list, and so its emission order and the back-indices into it, can differ: the extra record changes which records the swap-removes move. |
| SignalSlot.SameCountsAfterDisconnect | src/signalslot.h:145-162 | After a disconnect, each slot's signals in order and each signal's edge counts depend only on the other slots' lists and the signals' edge counts to them. The order of a signal's list can differ, because the swap-removes depend on the order of the departing slot's own list. |
| SignalSlot.SlotDisconnectIdempotent | src/signalslot.h:145-162 | Disconnecting a slot twice is the same as disconnecting it once. |
| SignalSlot.SignalDisconnectIdempotent | src/signalslot.h:195-212 | Disconnecting a signal twice is the same as disconnecting it once. |
| SignalSlot.SignalAssign | src/signalslot.h:176-187 | Self-assignment changes nothing. Otherwise `t` keeps its own edges and gains one edge per edge of `o`, to the same slots in the same order. `o` and every other signal are unchanged, and each slot gains one record naming `t` per edge it has to `o`. |
| SignalSlot.SignalCopy | src/signalslot.h:170-174 | A copied signal lists the same slots as the original, in the same order. The original is untouched, and each slot keeps its records and gains, at its end, one record naming the copy per edge to the original. |
| SignalSlot.SlotAssign | src/signalslot.h:116-128 | With the target's list empty or on self-assignment, the target gets `o`'s `call`, no edge changes, and every other slot keeps its `call`. |
| SignalSlot.SlotCopy | src/signalslot.h:104-108 | The slot copy constructor as written: the copy has `o`'s `call` and no connections. `o` and every signal are unchanged. |
| SignalSlot.SlotCopyDropsEdges | src/signalslot.h:121-124 | The copy of a slot connected to `g` has no edge to `g`, while the original keeps its edge. |
| SignalSlot.SlotCopyIntended | src/signalslot.h:104-128 | The corrected copy constructor: the copy lists the same signals as `o`, in order, and has `o`'s `call`. Each signal keeps its records and gains, at its end, one record naming the copy per edge to `o`, and the existing slots are unchanged. |
| SignalSlot.SlotCopyIntendedIsIndependent | src/signalslot.h:104-128 | With the corrected copy, disconnecting the original leaves the copy's edges in place. |
| Links.DropUnnamed | src/signalslot.h:110-114 | An endpoint with an empty list that no record names can be removed without breaking the invariant. |
| SignalSlot.SlotDestroy | src/signalslot.h:110-114 | `~Slot` disconnects and then the slot is gone. No remaining signal record names it, so no handle dangles. Other slots keep their signals and their `call`, signals keep their other edges, and a signal the slot had no edge to keeps its list unchanged. |
| SignalSlot.SignalDestroy | src/signalslot.h:189-193 | `~Signal` disconnects and then the signal is gone. No remaining slot record names it, the other signals keep their slots in order, and a slot the signal had no edge to keeps its list unchanged. |
| Emission.Emit | src/signalslot.h:220-244 | The walk makes one invocation per record of the signal's list, in list order. Each invocation passes the emission's arguments and the named slot's current `call`. It is empty exactly when the signal is unconnected. |
| Emission.Emit0 | src/signalslot.h:220-226 | `Signal0::operator()` is the walk with no arguments. |
| Emission.Emit1 | src/signalslot.h:228-235 | `Signal1::operator()(p)` is the walk passing `p`. |
| Emission.Emit2 | src/signalslot.h:237-244 | `Signal2::operator()(p, r)` is the walk passing `(p, r)`. |
| Emission.TraceSlots | src/signalslot.h:222-225 | The slots invoked are the peers of the signal's records, in order. |
| Emission.EmitOncePerEdge | src/signalslot.h:222-225 | A slot is invoked once per edge, as counted from the slot's own list. |
| Emission.ConnectInOrderAppends | src/signalslot.h:141-142 | A run of connects appends the slots to the signal's list in call order. |
| Emission.EmitInConnectionOrder | src/signalslot.h:130-143 | While only connects happen, emission order is connection order. Newly connected slots are invoked after all earlier edges. |
| Emission.DisconnectMovesLastIntoGap | src/signalslot.h:153-159 | When a slot with one edge disconnects, the signal's last record moves into the gap. Emission order is then the old order with that swap and the last position dropped, so it is no longer connection order unless the departing record was one of the last two. |

## Left out

- `Delegate` and the callables it wraps: `delegate.h` is not part of this model. A `call` is an opaque value, and an invocation is recorded, not executed.
- Re-entrant emission is not modelled: a `call` that connects, disconnects, copies or destroys while a signal iterates over its own vector.
- Addresses, pointers and object lifetime are replaced by ids; a record naming a destroyed object cannot be written in the model. `this != &other` becomes an id comparison.
- SignalSlot.SlotAssign: `Slot::operator=` on a target that already has connections is not modelled, because its loop appends to the vector it is iterating, which invalidates the iterator in C++. The member requires the target's list to be empty unless the assignment is to itself.
- SignalSlot.NewSlot: the default constructor leaves `call` default-constructed; the model takes the `call` as a parameter instead, as if it were set just after construction.
- `~Signal` is protected in the source, so only derived signals are destroyed; the model does not distinguish this.
- Allocation failure is not modelled. If the second `push_back` in `Slot::connect` (src/signalslot.h:142) throws, the slot keeps a record with no mirror; the model treats `connect` as always completing.
- `std::size_t` back-indices are unbounded `nat`; vectors never grow large enough to wrap.
- Callers in `include/game.h` and `src/soundsource.h` are not part of this model.
- `Slot0/1/2` are instantiations of the one `Slot` template. The model is generic in the `call` type `C`, and one `Registry<C>` holds the slots and signals of one delegate type. The emission arguments are passed as a unit, a value, or a pair.

## Findings

| source | as written | input that shows it | evidently intended | confidence | as-written member | corrected member |
|---|---|---|---|---|---|---|
| src/signalslot.h:121 | `Slot::operator=` re-issues a connect for each record of the target's own list, and the copy constructor calls it on a freshly constructed slot with an empty list, so the copy has no connections. | A slot `o` connected to signal `g`, copied into `t`: `t` has no edge to `g` and is not invoked when `g` emits. | The loop runs over the source slot's records, so the copy is connected to the same signals in the same order, as `Signal::operator=` does at src/signalslot.h:181. | high; not executed | SignalSlot.SlotCopy, SignalSlot.SlotCopyDropsEdges | SignalSlot.SlotCopyIntended, SignalSlot.SlotCopyIntendedIsIndependent |

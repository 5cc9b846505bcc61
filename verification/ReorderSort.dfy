/**
 * Reordering is sorting: when packets are displaced by at most the capacity of the buffer and
 * no timer fires, they come out exactly in the order in which they were sent.
 */
module ReorderSort {
  import opened Bytes
  import opened SequenceNumbers
  import opened Indexed = IndexedReorder
  import opened Machine = ReorderMachine
  import opened ReorderSimulation

  /**
   * The packets first, first + 1, ... arrive once each, `first` first. `pos[j]` is the time at
   * which first + j arrives: at most 64 late, and when a packet arrives the packets half
   * the number space before it have all arrived.
   */
  ghost predicate NearlySorted(first: int, arr: seq<Arrival>, pos: seq<nat>) {
    && |pos| == |arr|
    && (arr != [] ==> arr[0].index == first)
    && (forall j :: 0 <= j < |pos| ==> Arrives(first, arr, pos, j))
    && (forall p :: 0 <= p < |arr| ==> Sent(first, arr, pos, p))
    && (forall p, j :: 0 <= p < |arr| && 0 <= j < |pos| ==> HalfBehind(first, arr, pos, p, j))
  }

  predicate Arrives(first: int, arr: seq<Arrival>, pos: seq<nat>, j: int)
    requires 0 <= j < |pos|
  {
    pos[j] < |arr| && arr[pos[j]].index == first + j && pos[j] <= j + 64
  }

  predicate Sent(first: int, arr: seq<Arrival>, pos: seq<nat>, p: int)
    requires 0 <= p < |arr| == |pos|
  {
    first <= arr[p].index < first + |arr| && pos[arr[p].index - first] == p
  }

  predicate HalfBehind(first: int, arr: seq<Arrival>, pos: seq<nat>, p: int, j: int)
    requires 0 <= p < |arr| && 0 <= j < |pos|
  {
    first + j + HALF <= arr[p].index ==> pos[j] < p
  }

  /** After `p` arrivals: a sorted prefix is out, and the rest of what has arrived is held. */
  ghost predicate Sorting(first: int, arr: seq<Arrival>, pos: seq<nat>, p: nat, b: Buffer)
    requires NearlySorted(first, arr, pos) && p <= |arr|
  {
    && b.next.Some?
    && first <= b.next.value <= first + |arr|
    && SortedPrefix(arr, pos, p, b.emitted)
    && |b.emitted| == b.next.value - first
    && |b.emitted| + |b.pending| == p
    && (forall i :: i in b.pending ==> b.next.value <= i && HeldSince(first, arr, pos, p, i, b.pending[i]))
    && (forall q :: 0 <= q < p ==> arr[q].index < b.next.value || arr[q].index in b.pending)
  }

  predicate HeldSince(first: int, arr: seq<Arrival>, pos: seq<nat>, p: nat, i: int, packet: Packet)
    requires |pos| == |arr|
  {
    first <= i < first + |arr| && pos[i - first] < p <= |arr| && packet == arr[pos[i - first]].packet
  }

  ghost predicate SortedPrefix(arr: seq<Arrival>, pos: seq<nat>, p: nat, emitted: seq<Arrival>)
    requires p <= |arr|
  {
    && |emitted| <= |pos|
    && forall j :: 0 <= j < |emitted| ==> pos[j] < p && emitted[j] == arr[pos[j]]
  }

  ghost predicate Settling(first: int, arr: seq<Arrival>, pos: seq<nat>, p: nat, b: Buffer)
    requires NearlySorted(first, arr, pos) && p <= |arr|
  {
    if p == 0 then b == EMPTY else Sorting(first, arr, pos, p, b) && b.next.value !in b.pending
  }

  lemma EmitSorting(first: int, arr: seq<Arrival>, pos: seq<nat>, p: nat, b: Buffer)
    requires NearlySorted(first, arr, pos) && p <= |arr| && Sorting(first, arr, pos, p, b)
    requires b.next.value in b.pending
    ensures Sorting(first, arr, pos, p, EmitNext(b))
  {
    var n := b.next.value;
    assert Arrives(first, arr, pos, n - first);
    hide NearlySorted, Arrives;
    assert SortedPrefix(arr, pos, p, b.emitted + [Arrival(n, b.pending[n])]);
    assert EmitNext(b).pending.Keys == b.pending.Keys - {n};
  }

  lemma {:induction false} DrainSorting(first: int, arr: seq<Arrival>, pos: seq<nat>, p: nat, b: Buffer)
    requires NearlySorted(first, arr, pos) && p <= |arr| && Sorting(first, arr, pos, p, b)
    ensures Sorting(first, arr, pos, p, Drain(b)) && Drain(b).next.value !in Drain(b).pending
    decreases |b.pending|
  {
    hide NearlySorted;
    if b.next.value in b.pending {
      EmitSorting(first, arr, pos, p, b);
      DrainSorting(first, arr, pos, p, EmitNext(b));
    }
  }

  /** The packet waited for is yet to arrive, so the capacity is not exceeded. */
  lemma WaitingForArrival(first: int, arr: seq<Arrival>, pos: seq<nat>, p: nat, b: Buffer)
    requires NearlySorted(first, arr, pos) && p <= |arr| && Sorting(first, arr, pos, p, b)
    requires b.next.value !in b.pending
    ensures b.next.value < first + |arr| ==> pos[b.next.value - first] >= p
    ensures |b.pending| <= MAX_PENDING
    ensures p == |arr| ==> b.pending == map[] && |b.emitted| == |arr|
  {
    if b.next.value < first + |arr| {
      assert Arrives(first, arr, pos, b.next.value - first);
    } else {
      assert b.pending.Keys == {};
    }
  }

  lemma StoreSorting(first: int, arr: seq<Arrival>, pos: seq<nat>, p: nat, b: Buffer)
    requires NearlySorted(first, arr, pos) && p < |arr|
    requires Settling(first, arr, pos, p, b)
    ensures
      var a := arr[p];
      var e := if b.next.Some? then b.next.value else a.index;
      && e <= a.index < e + HALF
      && Sorting(first, arr, pos, p + 1, Store(b.(next := Some(e)), a))
  {
    var a := arr[p];
    assert Sent(first, arr, pos, p);
    if p > 0 {
      WaitingForArrival(first, arr, pos, p, b);
      assert b.next.value <= a.index && a.index !in b.pending;
      assert HalfBehind(first, arr, pos, p, b.next.value - first);
      assert HeldSince(first, arr, pos, p + 1, a.index, a.packet);
      hide NearlySorted, Arrives, Sent, HalfBehind;
    }
  }

  /** No arrival is dropped, and none makes the buffer skip. */
  lemma PushSorting(first: int, arr: seq<Arrival>, pos: seq<nat>, p: nat, b: Buffer)
    requires NearlySorted(first, arr, pos) && p < |arr|
    requires Settling(first, arr, pos, p, b)
    ensures
      var e := if b.next.Some? then b.next.value else arr[p].index;
      var r := Indexed.Push(b, arr[p]);
      && InWindow(e, arr[p].index)
      && r == Drain(Store(b.(next := Some(e)), arr[p]))
      && Settling(first, arr, pos, p + 1, r)
  {
    hide NearlySorted, Drain;
    var e := if b.next.Some? then b.next.value else arr[p].index;
    StoreSorting(first, arr, pos, p, b);
    DrainSorting(first, arr, pos, p + 1, Store(b.(next := Some(e)), arr[p]));
    WaitingForArrival(first, arr, pos, p + 1, Drain(Store(b.(next := Some(e)), arr[p])));
  }

  // ---------------------------------------------------------------- the 16-bit buffer

  /** A run in which nothing happens but the arrivals `arr`, in that order. */
  ghost predicate Delivers(events: seq<Event>, arr: seq<Arrival>) {
    && |events| == |arr|
    && forall n :: 0 <= n < |events| ==> events[n].Arrived? && events[n].packet == arr[n].packet
  }

  ghost function Indices(arr: seq<Arrival>): (r: seq<int>)
    ensures |r| == |arr| && forall j :: 0 <= j < |arr| ==> r[j] == arr[j].index
  {
    seq(|arr|, j requires 0 <= j < |arr| => arr[j].index)
  }

  lemma {:induction false} DeliverySorting(events: seq<Event>, first: int, arr: seq<Arrival>, pos: seq<nat>, p: nat)
    requires NearlySorted(first, arr, pos) && Numbered(arr) && Delivers(events, arr) && p <= |arr|
    ensures Settling(first, arr, pos, p, IndexedRun(events[..p], Indices(arr)[..p]))
    ensures WithinWindow(events[..p], Indices(arr)[..p])
  {
    var indices := Indices(arr);
    if p > 0 {
      var q := p - 1;
      DeliverySorting(events, first, arr, pos, q);
      DeliveryStep(events, first, arr, pos, q, events[..p], indices[..p]);
    }
  }

  lemma DeliveryStep(
      events: seq<Event>, first: int, arr: seq<Arrival>, pos: seq<nat>, q: nat, es: seq<Event>, xs: seq<int>)
    requires NearlySorted(first, arr, pos) && Numbered(arr) && Delivers(events, arr) && q < |arr|
    requires es == events[..q + 1] && xs == Indices(arr)[..q + 1]
    requires WithinWindow(events[..q], Indices(arr)[..q])
    requires Settling(first, arr, pos, q, IndexedRun(events[..q], Indices(arr)[..q]))
    ensures WithinWindow(es, xs) && Settling(first, arr, pos, q + 1, IndexedRun(es, xs))
  {
    hide NearlySorted, Sorting, WithinWindow;
    assert es[..q] == events[..q] && xs[..q] == Indices(arr)[..q];
    assert arr[q] == Arrival(xs[q], es[q].packet);
    PushSorting(first, arr, pos, q, IndexedRun(es[..q], xs[..q]));
    WithinWindowExtend(es, xs);
  }

  /** The buffer sorts: the packet with index first + j leaves as number j, whenever it arrived. */
  lemma NearlySortedArrivalsComeOutSorted(events: seq<Event>, first: int, arr: seq<Arrival>, pos: seq<nat>)
    requires NearlySorted(first, arr, pos) && Numbered(arr) && Delivers(events, arr)
    ensures
      var s := Run(INITIAL, events);
      && s.pending == map[]
      && |s.emitted| == |arr|
      && forall p :: 0 <= p < |arr| ==>
           0 <= arr[p].index - first < |arr| && s.emitted[arr[p].index - first] == arr[p].packet
  {
    var n, indices := |arr|, Indices(arr);
    DeliverySorting(events, first, arr, pos, n);
    assert events[..n] == events && indices[..n] == indices;
    RunAlike(events, indices);
    DeliveredSorted(first, arr, pos, Run(INITIAL, events), IndexedRun(events, indices));
  }

  lemma DeliveredSorted(first: int, arr: seq<Arrival>, pos: seq<nat>, s: State, b: Buffer)
    requires NearlySorted(first, arr, pos) && Settling(first, arr, pos, |arr|, b) && Represents(s, b)
    ensures s.pending == map[] && |s.emitted| == |arr|
    ensures forall p :: 0 <= p < |arr| ==>
              0 <= arr[p].index - first < |arr| && s.emitted[arr[p].index - first] == arr[p].packet
  {
    EqualSizes(s, b);
    hide SameKeys;
    if arr != [] {
      WaitingForArrival(first, arr, pos, |arr|, b);
      forall p | 0 <= p < |arr|
        ensures 0 <= arr[p].index - first < |arr| && s.emitted[arr[p].index - first] == arr[p].packet
      {
        assert Sent(first, arr, pos, p);
        assert b.emitted[arr[p].index - first] == arr[p];
      }
    }
  }
}

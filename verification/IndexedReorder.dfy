/**
 * The reference reorder buffer. It works on unbounded packet indices, so "earlier", "later"
 * and "nearest" are the order of the integers, and it keeps a ledger of every arrival.
 */
module IndexedReorder {
  import opened Bytes
  import opened SequenceNumbers

  const MAX_PENDING := 64

  datatype Arrival = Arrival(index: int, packet: Packet)

  function Packets(arrivals: seq<Arrival>): (packets: seq<Packet>)
    ensures |packets| == |arrivals|
    ensures forall j :: 0 <= j < |arrivals| ==> packets[j] == arrivals[j].packet
  {
    seq(|arrivals|, j requires 0 <= j < |arrivals| => arrivals[j].packet)
  }

  datatype Buffer = Buffer(
    next: Option<int>,
    pending: map<int, Packet>,
    emitted: seq<Arrival>,
    stale: seq<Arrival>,
    duplicate: seq<Arrival>)

  const EMPTY := Buffer(None, map[], [], [], [])

  ghost function Least(s: set<int>): (m: int)
    requires s != {}
    ensures m in s && forall x :: x in s ==> m <= x
  {
    LeastExists(s);
    var m :| m in s && forall x :: x in s ==> m <= x;
    m
  }

  lemma {:induction false} LeastExists(s: set<int>)
    requires s != {}
    ensures exists m :: m in s && forall x :: x in s ==> m <= x
  {
    var x := Member(s);
    var rest := s - {x};
    if rest == {} {
      assert s == {x};
    } else {
      LeastExists(rest);
      var m :| m in rest && forall y :: y in rest ==> m <= y;
      assert forall y :: y in s ==> y == x || y in rest;
      assert (if m < x then m else x) in s;
    }
  }

  /** Emits the run of consecutive packets that starts at `next`. */
  ghost function Drain(b: Buffer): (r: Buffer)
    requires b.next.Some?
    ensures r.next.Some?
    decreases |b.pending|
  {
    var n := b.next.value;
    if n in b.pending then Drain(EmitNext(b)) else b
  }

  ghost function EmitNext(b: Buffer): (r: Buffer)
    requires b.next.Some? && b.next.value in b.pending
    ensures |r.pending| < |b.pending|
  {
    var n := b.next.value;
    assert (b.pending - {n}).Keys == b.pending.Keys - {n};
    b.(next := Some(n + 1), pending := b.pending - {n}, emitted := b.emitted + [Arrival(n, b.pending[n])])
  }

  /** Gives up on the packets before the least pending one. */
  ghost function Skip(b: Buffer): Buffer
    requires b.pending != map[]
  {
    b.(next := Some(Least(b.pending.Keys)))
  }

  ghost function Store(b: Buffer, a: Arrival): Buffer {
    if a.index in b.pending then b.(duplicate := b.duplicate + [a])
    else b.(pending := b.pending[a.index := a.packet])
  }

  ghost function Push(b: Buffer, a: Arrival): Buffer {
    var e := if b.next.Some? then b.next.value else a.index;
    if a.index < e then b.(stale := b.stale + [a])
    else
      Relieve(Drain(Store(b.(next := Some(e)), a)))
  }

  /** The overflow rule: more than MAX_PENDING packets held back force a skip. */
  ghost function Relieve(b: Buffer): Buffer
    requires b.next.Some?
  {
    if |b.pending| > MAX_PENDING then Drain(Skip(b)) else b
  }

  ghost function Expire(b: Buffer): Buffer {
    if b.pending == map[] then b else Drain(Skip(b))
  }

  ghost function FlushRemaining(b: Buffer): Buffer
    decreases |b.pending|
  {
    if b.pending == map[] then b else
      SkipDrainShrinks(b);
      FlushRemaining(Drain(Skip(b)))
  }

  lemma DrainShrinks(b: Buffer)
    requires b.next.Some?
    ensures |Drain(b).pending| <= |b.pending|
    ensures b.next.value in b.pending ==> |Drain(b).pending| < |b.pending|
    decreases |b.pending|
  {
    if b.next.value in b.pending {
      DrainShrinks(EmitNext(b));
    }
  }

  lemma SkipDrainShrinks(b: Buffer)
    requires b.pending != map[]
    ensures |Drain(Skip(b)).pending| < |b.pending|
  {
    DrainShrinks(Skip(b));
  }

  // ---------------------------------------------------------------- order

  /** Emission order: indices go up, and never by more than half the number space. */
  ghost predicate InOrder(s: seq<Arrival>) {
    forall i, j :: 0 <= i < j < |s| ==>
      s[i].index < s[j].index && (j == i + 1 ==> s[j].index <= s[i].index + HALF)
  }

  ghost predicate Follows(b: Buffer) {
    b.next.Some? && b.emitted != [] && b.next.value == b.emitted[|b.emitted| - 1].index + 1
  }

  /** Holds inside an operation. */
  ghost predicate Draining(b: Buffer) {
    && b.next.Some?
    && InOrder(b.emitted)
    && (b.emitted != [] ==>
          var last := b.emitted[|b.emitted| - 1].index;
          last < b.next.value <= last + HALF)
    && (forall i :: i in b.pending ==> b.next.value <= i < b.next.value + HALF)
  }

  /** Holds between operations. */
  ghost predicate Settled(b: Buffer) {
    if b.next.None? then b.pending == map[] && b.emitted == []
    else Draining(b) && Follows(b) && b.next.value !in b.pending && |b.pending| <= MAX_PENDING
  }

  lemma EmitNextDraining(b: Buffer)
    requires Draining(b) && b.next.value in b.pending
    ensures Draining(EmitNext(b)) && Follows(EmitNext(b))
  {
    var r, last := EmitNext(b), |b.emitted| - 1;
    forall i, j | 0 <= i < j < |r.emitted|
      ensures r.emitted[i].index < r.emitted[j].index
      ensures j == i + 1 ==> r.emitted[j].index <= r.emitted[i].index + HALF
    {
      assert i <= last;
      assert b.emitted[i].index <= b.emitted[last].index;
    }
  }

  lemma {:induction false} DrainSettles(b: Buffer)
    requires Draining(b)
    requires b.next.value in b.pending || Follows(b)
    ensures Draining(Drain(b)) && Follows(Drain(b)) && Drain(b).next.value !in Drain(b).pending
    ensures b.emitted <= Drain(b).emitted
    ensures Drain(b).stale == b.stale && Drain(b).duplicate == b.duplicate
    decreases |b.pending|
  {
    if b.next.value in b.pending {
      EmitNextDraining(b);
      DrainSettles(EmitNext(b));
    }
  }

  lemma SkipDraining(b: Buffer)
    requires Draining(b) && Follows(b) && b.pending != map[]
    ensures Draining(Skip(b)) && Skip(b).next.value in b.pending
  {
  }

  lemma StoreDraining(b: Buffer, a: Arrival, e: int)
    requires Settled(b) && e == (if b.next.Some? then b.next.value else a.index)
    requires e <= a.index < e + HALF
    ensures
      var s := Store(b.(next := Some(e)), a);
      && Draining(s)
      && (e in s.pending || Follows(s))
      && s.emitted == b.emitted
      && |s.pending| <= MAX_PENDING + 1
  {
  }

  lemma RelieveSettles(b: Buffer)
    requires Draining(b) && Follows(b) && b.next.value !in b.pending && |b.pending| <= MAX_PENDING + 1
    ensures Settled(Relieve(b)) && b.emitted <= Relieve(b).emitted
  {
    if |b.pending| > MAX_PENDING {
      SkipDraining(b);
      DrainSettles(Skip(b));
      SkipDrainShrinks(b);
    }
  }

  lemma PushSettles(b: Buffer, a: Arrival)
    requires Settled(b)
    requires b.next.Some? ==> InWindow(b.next.value, a.index)
    ensures Settled(Push(b, a)) && b.emitted <= Push(b, a).emitted
  {
    var e := if b.next.Some? then b.next.value else a.index;
    if a.index < e {
      assert Push(b, a) == b.(stale := b.stale + [a]);
    } else {
      AcceptSettles(b, a, e);
    }
  }

  lemma AcceptSettles(b: Buffer, a: Arrival, e: int)
    requires Settled(b) && e == (if b.next.Some? then b.next.value else a.index)
    requires e <= a.index < e + HALF
    ensures
      var r := Relieve(Drain(Store(b.(next := Some(e)), a)));
      Settled(r) && b.emitted <= r.emitted
  {
    var s := Store(b.(next := Some(e)), a);
    StoreDraining(b, a, e);
    DrainSettles(s);
    DrainShrinks(s);
    RelieveSettles(Drain(s));
  }

  lemma ExpireSettles(b: Buffer)
    requires Settled(b)
    ensures Settled(Expire(b)) && b.emitted <= Expire(b).emitted
  {
    if b.pending != map[] {
      SkipDraining(b);
      DrainSettles(Skip(b));
      SkipDrainShrinks(b);
    }
  }

  lemma {:induction false} FlushSettles(b: Buffer)
    requires Settled(b)
    ensures Settled(FlushRemaining(b)) && FlushRemaining(b).pending == map[]
    ensures b.emitted <= FlushRemaining(b).emitted && InOrder(FlushRemaining(b).emitted)
    decreases |b.pending|
  {
    if b.pending != map[] {
      ExpireSettles(b);
      SkipDrainShrinks(b);
      FlushSettles(Drain(Skip(b)));
    }
  }

  // ---------------------------------------------------------------- conservation

  ghost function PendingArrivals(pending: map<int, Packet>): set<Arrival> {
    set i | i in pending :: Arrival(i, pending[i])
  }

  /** Every arrival the buffer accounts for, each in exactly one place. */
  ghost function Ledger(b: Buffer): multiset<Arrival> {
    multiset(b.emitted) + multiset(PendingArrivals(b.pending)) + multiset(b.stale) + multiset(b.duplicate)
  }

  lemma PendingAdd(pending: map<int, Packet>, a: Arrival)
    requires a.index !in pending
    ensures multiset(PendingArrivals(pending[a.index := a.packet])) ==
            multiset(PendingArrivals(pending)) + multiset{a}
  {
    var q := pending[a.index := a.packet];
    assert PendingArrivals(q) == PendingArrivals(pending) + {a} by {
      assert a == Arrival(a.index, q[a.index]);
      forall x | x in PendingArrivals(pending) ensures x in PendingArrivals(q) {
        assert x.index in q && x == Arrival(x.index, q[x.index]);
      }
    }
    assert a !in PendingArrivals(pending);
  }

  lemma PendingRemove(pending: map<int, Packet>, i: int)
    requires i in pending
    ensures multiset(PendingArrivals(pending)) ==
            multiset(PendingArrivals(pending - {i})) + multiset{Arrival(i, pending[i])}
  {
    assert (pending - {i})[i := pending[i]] == pending;
    PendingAdd(pending - {i}, Arrival(i, pending[i]));
  }

  lemma {:induction false} DrainConserves(b: Buffer)
    requires b.next.Some?
    ensures Ledger(Drain(b)) == Ledger(b)
    decreases |b.pending|
  {
    if b.next.value in b.pending {
      PendingRemove(b.pending, b.next.value);
      DrainConserves(EmitNext(b));
    }
  }

  lemma StoreConserves(b: Buffer, a: Arrival)
    ensures Ledger(Store(b, a)) == Ledger(b) + multiset{a}
  {
    if a.index !in b.pending {
      PendingAdd(b.pending, a);
    }
  }

  lemma RelieveConserves(b: Buffer)
    requires b.next.Some?
    ensures Ledger(Relieve(b)) == Ledger(b)
  {
    hide Ledger;
    if |b.pending| > MAX_PENDING {
      DrainConserves(Skip(b));
      SkipConserves(b);
    }
  }

  lemma SkipConserves(b: Buffer)
    requires b.pending != map[]
    ensures Ledger(Skip(b)) == Ledger(b)
  {
  }

  lemma PushConserves(b: Buffer, a: Arrival)
    ensures Ledger(Push(b, a)) == Ledger(b) + multiset{a}
  {
    var e := if b.next.Some? then b.next.value else a.index;
    if a.index >= e {
      var c := b.(next := Some(e));
      assert Ledger(c) == Ledger(b);
      hide Ledger, Drain, Relieve, Store;
      StoreConserves(c, a);
      DrainConserves(Store(c, a));
      RelieveConserves(Drain(Store(c, a)));
    }
  }

  lemma ExpireConserves(b: Buffer)
    ensures Ledger(Expire(b)) == Ledger(b)
  {
    if b.pending != map[] {
      DrainConserves(Skip(b));
    }
  }

  lemma {:induction false} FlushConserves(b: Buffer)
    ensures Ledger(FlushRemaining(b)) == Ledger(b)
    decreases |b.pending|
  {
    if b.pending != map[] {
      ExpireConserves(b);
      SkipDrainShrinks(b);
      FlushConserves(Drain(Skip(b)));
    }
  }

  lemma {:induction false} FlushKeepsDrops(b: Buffer)
    requires Settled(b)
    ensures FlushRemaining(b).stale == b.stale && FlushRemaining(b).duplicate == b.duplicate
    decreases |b.pending|
  {
    if b.pending != map[] {
      SkipDraining(b);
      DrainSettles(Skip(b));
      ExpireSettles(b);
      SkipDrainShrinks(b);
      FlushKeepsDrops(Drain(Skip(b)));
    }
  }

  lemma InOrderSuffix(s: seq<Arrival>, n: nat)
    requires InOrder(s) && n <= |s|
    ensures InOrder(s[n..])
  {
  }

  lemma FlushedMultiset(b: Buffer, c: Buffer, rest: seq<Arrival>)
    requires c.emitted == b.emitted + rest && c.pending == map[]
    requires c.stale == b.stale && c.duplicate == b.duplicate && Ledger(c) == Ledger(b)
    ensures multiset(rest) == multiset(PendingArrivals(b.pending))
  {
    assert PendingArrivals(c.pending) == {};
    Cancel(multiset(b.emitted), multiset(PendingArrivals(b.pending)), multiset(rest),
           multiset(b.stale), multiset(b.duplicate));
  }

  /** Flushing appends exactly the arrivals that were held. */
  lemma FlushEmitsPending(b: Buffer, rest: seq<Arrival>)
    requires Settled(b)
    requires |b.emitted| <= |FlushRemaining(b).emitted| && rest == FlushRemaining(b).emitted[|b.emitted|..]
    ensures InOrder(rest) && FlushRemaining(b).emitted == b.emitted + rest
    ensures multiset(rest) == multiset(PendingArrivals(b.pending))
  {
    hide *;
    FlushSettles(b);
    FlushConserves(b);
    FlushKeepsDrops(b);
    var c := FlushRemaining(b);
    InOrderSuffix(c.emitted, |b.emitted|);
    FlushedMultiset(b, c, rest);
  }

  lemma Cancel<T>(x: multiset<T>, before: multiset<T>, after: multiset<T>, s: multiset<T>, d: multiset<T>)
    requires x + before + s + d == x + after + multiset{} + s + d
    ensures after == before
  {
    forall t ensures after[t] == before[t] {
      assert (x + before + s + d)[t] == x[t] + before[t] + s[t] + d[t];
      assert (x + after + multiset{} + s + d)[t] == x[t] + after[t] + s[t] + d[t];
    }
  }
}

/**
 * The RTSP connection: a buffer refilled by reads of any size, from which responses and
 * interleaved frames are taken.
 */
module RtspConnection {
  import opened Bytes
  import opened RtspHeader
  import opened Interleaved
  import opened MediaRelay

  datatype ResponseResult = Received(item: Item) | Rejected | Panicked | Lost
  datatype PumpResult = Cancelled | ReadFailed | BadStatus | PumpPanicked | HandlerFailed

  datatype Turn = Took(item: Item) | Refilled | Ended(result: PumpResult)

  /** `now` is what is left of the scan `whole` after `taken` items. */
  ghost predicate Remaining(whole: Scanned, taken: nat, now: Scanned) {
    && taken <= |whole.items|
    && now.items == whole.items[taken..]
    && now.ending == whole.ending
    && now.rest == whole.rest
  }

  /** Taking the first item off a stream takes it off its scan. */
  lemma TakeFirst(b: seq<Byte>, whole: Scanned, taken: nat)
    requires Next(b).Complete? && Remaining(whole, taken, Scan(b))
    ensures taken < |whole.items| && whole.items[taken] == Next(b).item
    ensures Remaining(whole, taken + 1, Scan(b[Next(b).size..]))
  {
    hide Next;
    var s := Scan(b);
    assert s.items[0] == Next(b).item && s.items[1..] == Scan(b[Next(b).size..]).items;
  }

  /** The first `taken` items and the bytes `left` are the bytes `received`. */
  ghost predicate Accounted(items: seq<Item>, taken: nat, left: seq<Byte>, received: seq<Byte>) {
    taken <= |items| && Encodable(items[..taken]) && EncodeAll(items[..taken]) + left == received
  }

  lemma Consumed(b: seq<Byte>, taken: nat, c: seq<Byte>, last: seq<Byte>)
    requires Remaining(Scan(b), taken, Scan(c))
    ensures Accounted(Scan(b).items, taken, c, b) && Accounted(Scan(b).items, taken, c + last, b + last)
  {
    hide Scan, Encode, EncodeAll;
    var s, now := Scan(b), Scan(c);
    ScanConserves(b);
    ScanConserves(c);
    assert s.items == s.items[..taken] + now.items;
    EncodeAllAppend(s.items[..taken], now.items);
    var consumed := EncodeAll(s.items[..taken]);
    Reassociate(consumed, EncodeAll(now.items), now.rest);
    Reassociate(consumed, c, last);
  }

  lemma {:induction false} MediaPacketsAppend(a: seq<Item>, b: seq<Item>)
    ensures MediaPackets(a + b) == MediaPackets(a) + MediaPackets(b)
  {
    if a == [] {
      assert a + b == b;
    } else {
      assert (a + b)[1..] == a[1..] + b;
      MediaPacketsAppend(a[1..], b);
    }
  }

  /** Handing over one more item. */
  lemma HandOver(client: Client, m: Media, items: seq<Item>, taken: nat, now: Media)
    requires taken < |items|
    requires HandleAll(client, m, MediaPackets(items[..taken])) == Handled(now, true)
    ensures
      var item, after := items[taken], HandleAll(client, m, MediaPackets(items[..taken + 1]));
      if item.Frame? && item.channel % 2 == 0 then after == HandlePacket(client, now, item.payload)
      else after == Handled(now, true)
  {
    hide HandlePacket;
    var item := items[taken];
    assert items[..taken + 1] == items[..taken] + [item];
    MediaPacketsAppend(items[..taken], [item]);
    HandleAppend(client, m, MediaPackets(items[..taken]), MediaPackets([item]));
    if item.Frame? && item.channel % 2 == 0 {
      assert MediaPackets([item]) == [item.payload];
      var h := HandlePacket(client, now, item.payload);
      assert HandleAll(client, now, [item.payload]) == h;
    } else {
      assert MediaPackets([item]) == [];
    }
  }

  /** What has been handed over when the handler fails is all that it would have accepted. */
  lemma NothingAfterFailure(client: Client, m: Media, items: seq<Item>, taken: nat)
    requires taken <= |items| && !HandleAll(client, m, MediaPackets(items[..taken])).ok
    ensures HandleAll(client, m, MediaPackets(items)) == HandleAll(client, m, MediaPackets(items[..taken]))
  {
    assert items == items[..taken] + items[taken..];
    MediaPacketsAppend(items[..taken], items[taken..]);
    HandleAppend(client, m, MediaPackets(items[..taken]), MediaPackets(items[taken..]));
  }

  /** How the pump ends when it gets to the end of the stream. */
  function ResultOf(ending: Ending): PumpResult {
    match ending
    case Starved => ReadFailed
    case EndedBad => BadStatus
    case EndedPanic => PumpPanicked
  }

  /** Gives one more item to the handler, unless it belongs to an odd channel or is a response. */
  method Deliver(item: Item, handler: MediaHandler, ghost start: Media, ghost items: seq<Item>, ghost taken: nat)
    returns (ok: bool)
    requires taken < |items| && items[taken] == item
    requires HandleAll(handler.client, start, MediaPackets(items[..taken])) == Handled(handler.State(), true)
    modifies handler, handler.diagnostics
    ensures HandleAll(handler.client, start, MediaPackets(items[..taken + 1])) == Handled(handler.State(), ok)
  {
    hide HandleAll, HandlePacket, MediaPackets;
    HandOver(handler.client, start, items, taken, handler.State());
    ok := true;
    if item.Frame? && item.channel % 2 == 0 {
      ok := handler.Handle(item.payload);
    }
  }

  /**
   * The handler, `start` at first, has been given the first `taken` items and is `now`. It has
   * refused the last of them if that is the result, and otherwise none; unless the pump was
   * cancelled, it is as if it had been given all.
   */
  ghost predicate Delivered(
      client: Client, start: Media, items: seq<Item>, taken: nat, result: PumpResult, now: Media)
    requires taken <= |items|
  {
    && HandleAll(client, start, MediaPackets(items[..taken])) == Handled(now, result != HandlerFailed)
    && (result != Cancelled ==>
          HandleAll(client, start, MediaPackets(items)) == Handled(now, result != HandlerFailed))
    && (result == HandlerFailed ==> 0 < taken && HandleAll(client, start, MediaPackets(items[..taken - 1])).ok)
  }

  /** Nothing has been refused so far, and the pump is cancelled or there is nothing more. */
  lemma DeliveredSoFar(client: Client, start: Media, items: seq<Item>, taken: nat, result: PumpResult, now: Media)
    requires taken <= |items| && HandleAll(client, start, MediaPackets(items[..taken])) == Handled(now, true)
    requires result != HandlerFailed && (result == Cancelled || taken == |items|)
    ensures Delivered(client, start, items, taken, result, now)
  {
    assert taken == |items| ==> items[..taken] == items;
    hide HandleAll, MediaPackets;
  }

  /** The item at `taken` has been refused. */
  lemma DeliveredUntilFailure(client: Client, start: Media, items: seq<Item>, taken: nat, now: Media)
    requires taken < |items| && HandleAll(client, start, MediaPackets(items[..taken])).ok
    requires HandleAll(client, start, MediaPackets(items[..taken + 1])) == Handled(now, false)
    ensures Delivered(client, start, items, taken + 1, HandlerFailed, now)
  {
    NothingAfterFailure(client, start, items, taken + 1);
    hide HandleAll, MediaPackets;
  }

  /** The error that the pump returns; `error` is that of the failed read or of the handler. */
  function TcpEnd(result: PumpResult, error: PumpEnd): PumpEnd
    requires result != PumpPanicked
  {
    match result
    case Cancelled => ContextDone
    case BadStatus => OtherError
    case ReadFailed => error
    case HandlerFailed => error
  }

  class Connection {
    var buffer: seq<Byte>
    /** What the reads to come deliver; the read after them fails, delivering `last`. */
    var incoming: seq<seq<Byte>>
    var last: seq<Byte>

    /** Everything received and not consumed once the reads are done. */
    ghost function Stream(): seq<Byte>
      reads this
    {
      buffer + Flatten(incoming)
    }

    constructor (incoming: seq<seq<Byte>>, last: seq<Byte>)
      ensures Stream() == Flatten(incoming) && this.last == last
      ensures buffer == [] && this.incoming == incoming
    {
      this.buffer, this.incoming, this.last := [], incoming, last;
    }

    method ReadMore() returns (ok: bool)
      modifies this
      ensures ok <==> old(incoming) != []
      ensures ok ==> incoming == old(incoming)[1..] && Stream() == old(Stream()) && last == old(last)
      ensures ok ==> buffer == old(buffer) + old(incoming)[0]
      ensures !ok ==> incoming == [] && last == [] && buffer == old(Stream()) + old(last)
    {
      if incoming == [] {
        buffer := buffer + last;
        last := [];
        return false;
      }
      buffer := buffer + incoming[0];
      incoming := incoming[1..];
      return true;
    }

    /** A response is taken whole or not at all; what follows it stays in the buffer. */
    method ReadResponse() returns (r: ResponseResult)
      modifies this
      ensures match ParseResponse(old(Stream()))
              case Complete(item, size) =>
                && r == Received(item) && Stream() == old(Stream())[size..] && last == old(last)
                && |incoming| <= |old(incoming)|
              case BadResponse => r == Rejected && Stream() == old(Stream()) && last == old(last)
              case Panic => r == Panicked && Stream() == old(Stream()) && last == old(last)
              case NeedMore => r == Lost && incoming == [] && last == [] && buffer == old(Stream()) + old(last)
    {
      while true
        invariant Stream() == old(Stream()) && last == old(last) && |incoming| <= |old(incoming)|
        decreases |incoming|
      {
        var headerEnd := HeaderEnd(buffer);
        if headerEnd.Some? {
          HeaderEndInRange(buffer, 0);
          HeaderEndStable(buffer, Flatten(incoming), 0);
          var h := headerEnd.value;
          SliceBefore(buffer, Flatten(incoming), 0, h);
          var verdict := ReadHeader(buffer[..h]);
          match verdict
          case Unusable => return Rejected;
          case ContentLength(n) =>
            if n < 0 || h + 4 + n > MAX_INT {
              return Panicked;
            }
            r := ReadBody(h, n);
            return;
        }
        assert incoming == [] ==> Stream() == buffer;
        var ok := ReadMore();
        if !ok {
          return Lost;
        }
      }
    }

    method ReadBody(h: nat, n: nat) returns (r: ResponseResult)
      requires HeaderEnd(buffer) == Some(h) && h + 4 <= |buffer|
      requires ParseHeader(buffer[..h]) == ContentLength(n) && h + 4 + n <= MAX_INT
      modifies this
      ensures match ParseResponse(old(Stream()))
              case Complete(item, size) =>
                && r == Received(item) && Stream() == old(Stream())[size..] && last == old(last)
                && |incoming| <= |old(incoming)|
              case NeedMore => r == Lost && incoming == [] && last == [] && buffer == old(Stream()) + old(last)
              case _ => false
    {
      hide ParseHeader, HeaderEndFrom;
      HeaderEndStable(buffer, Flatten(incoming), 0);
      SliceBefore(buffer, Flatten(incoming), 0, h);
      while |buffer| < h + 4 + n
        invariant Stream() == old(Stream()) && last == old(last) && |incoming| <= |old(incoming)|
        invariant h + 4 <= |buffer|
        decreases |incoming|
      {
        var ok := ReadMore();
        if !ok {
          return Lost;
        }
      }
      SliceBefore(buffer, Flatten(incoming), 0, h);
      SliceBefore(buffer, Flatten(incoming), h + 4, h + 4 + n);
      SliceAfter(buffer, Flatten(incoming), h + 4 + n);
      r := Received(Response(buffer[..h], buffer[h + 4..h + 4 + n]));
      buffer := buffer[h + 4 + n..];
    }

    /** Takes the frame at the front of the buffer. */
    method TakeFrame() returns (channel: Byte, payload: seq<Byte>)
      requires buffer != [] && !(RTSP <= buffer) && buffer[0] == MARKER
      requires 4 <= |buffer| && 4 + ReadUint16BE(buffer, 2) <= |buffer|
      modifies this`buffer
      ensures Next(old(Stream())) == Complete(Frame(channel, payload), 4 + |payload|)
      ensures Stream() == old(Stream())[4 + |payload|..]
    {
      NextStable(buffer, Flatten(incoming));
      var frameLength: int := ReadUint16BE(buffer, 2);
      var totalLength := 4 + frameLength;
      channel, payload := buffer[1], buffer[4..totalLength];
      buffer := buffer[totalLength..];
    }

    /** One turn of the pump: takes what the buffer begins with, or reads more. */
    method TakeItem() returns (r: Turn)
      modifies this
      ensures match r
              case Took(item) =>
                && Next(old(Stream())).Complete? && item == Next(old(Stream())).item
                && Stream() == old(Stream())[Next(old(Stream())).size..] && last == old(last)
                && |incoming| <= |old(incoming)|
              case Refilled => Stream() == old(Stream()) && last == old(last) && |incoming| < |old(incoming)|
              case Ended(result) =>
                match Next(old(Stream()))
                case NeedMore =>
                  result == ReadFailed && incoming == [] && last == [] && buffer == old(Stream()) + old(last)
                case BadResponse => result == BadStatus && Stream() == old(Stream()) && last == old(last)
                case Panic => result == PumpPanicked && Stream() == old(Stream()) && last == old(last)
                case Complete(_, _) => false
    {
      if |buffer| == 0 {
        r := Refill();
      } else if RTSP <= buffer {
        var response := ReadResponse();
        match response
        case Received(item) => r := Took(item);
        case Rejected => r := Ended(BadStatus);
        case Panicked => r := Ended(PumpPanicked);
        case Lost => r := Ended(ReadFailed);
      } else if buffer[0] != MARKER || |buffer| < 4 || |buffer| < 4 + ReadUint16BE(buffer, 2) {
        r := Refill();
      } else {
        var channel, payload := TakeFrame();
        r := Took(Frame(channel, payload));
      }
    }

    method Refill() returns (r: Turn)
      requires Next(buffer) == NeedMore
      modifies this
      ensures r.Refilled? || r == Ended(ReadFailed)
      ensures r.Refilled? ==> Stream() == old(Stream()) && last == old(last) && |incoming| < |old(incoming)|
      ensures r.Ended? ==> Next(old(Stream())) == NeedMore && incoming == [] && last == []
      ensures r.Ended? ==> buffer == old(Stream()) + old(last)
    {
      assert incoming == [] ==> Stream() == buffer;
      var ok := ReadMore();
      r := if ok then Refilled else Ended(ReadFailed);
    }

    /**
     * What a pump that began with `received` to read has done when it ends with `result`: the
     * first `taken` items have been consumed and their media handed over, and what is left are
     * the other bytes. Unless it was cancelled or the handler failed, it ends as the stream does.
     */
    ghost predicate Pumped(
        handler: MediaHandler, start: Media, received: seq<Byte>, tail: seq<Byte>, taken: nat, result: PumpResult)
      reads this, handler, handler.diagnostics
    {
      var s := Scan(received);
      && taken <= |s.items| && Delivered(handler.client, start, s.items, taken, result, handler.State())
      && (result != Cancelled && result != HandlerFailed ==> taken == |s.items| && result == ResultOf(s.ending))
      && (result != ReadFailed ==> last == tail && Accounted(s.items, taken, Stream(), received))
      && (result == ReadFailed ==>
            && incoming == [] && last == [] && buffer == s.rest + tail
            && Accounted(s.items, taken, buffer, received + tail))
    }

    /** A pump on its way. */
    ghost predicate Pumping(handler: MediaHandler, start: Media, received: seq<Byte>, tail: seq<Byte>, taken: nat)
      reads this, handler, handler.diagnostics
    {
      && last == tail && Remaining(Scan(received), taken, Scan(Stream()))
      && HandleAll(handler.client, start, MediaPackets(Scan(received).items[..taken])) == Handled(handler.State(), true)
    }

    lemma CancelledNow(handler: MediaHandler, start: Media, received: seq<Byte>, tail: seq<Byte>, taken: nat)
      requires Pumping(handler, start, received, tail, taken)
      ensures Pumped(handler, start, received, tail, taken, Cancelled)
    {
      hide HandleAll, MediaPackets, Accounted, Delivered, Scan;
      Consumed(received, taken, Stream(), last);
      DeliveredSoFar(handler.client, start, Scan(received).items, taken, Cancelled, handler.State());
    }

    /** One turn of the pump. */
    method Turn(
        handler: MediaHandler, ghost start: Media, ghost received: seq<Byte>, ghost tail: seq<Byte>, ghost taken: nat)
      returns (ended: bool, result: PumpResult, ghost now: nat)
      requires Pumping(handler, start, received, tail, taken)
      modifies this, handler, handler.diagnostics
      ensures ended ==> result != Cancelled && Pumped(handler, start, received, tail, now, result)
      ensures !ended ==>
                && Pumping(handler, start, received, tail, now) && |incoming| <= |old(incoming)|
                && (if now == taken then Stream() == old(Stream()) && |incoming| < |old(incoming)|
                    else now == taken + 1 && |Stream()| < |old(Stream())|)
    {
      hide HandleAll, MediaPackets, Next, Accounted, Scan, Remaining, Delivered;
      ghost var stream, whole := Stream(), Scan(received);
      Consumed(received, taken, stream, last);
      var r := TakeItem();
      match r
      case Refilled =>
        return false, Cancelled, taken;
      case Ended(end) =>
        AtTheEnd(whole, taken, stream);
        DeliveredSoFar(handler.client, start, whole.items, taken, end, handler.State());
        return true, end, taken;
      case Took(item) =>
        TakeFirst(stream, whole, taken);
        var ok := Deliver(item, handler, start, whole.items, taken);
        if !ok {
          Consumed(received, taken + 1, Stream(), last);
          DeliveredUntilFailure(handler.client, start, whole.items, taken, handler.State());
          return true, HandlerFailed, taken + 1;
        }
        return false, Cancelled, taken + 1;
    }

    /**
     * Hands the even channels' payloads to `handler`. `cancelled(t)` says that the context is
     * found done at turn t of the loop; the pump ends as cancelled exactly at the first such turn
     * that it comes to.
     */
    method PumpInterleaved(cancelled: nat -> bool, handler: MediaHandler)
      returns (result: PumpResult, ghost taken: nat)
      modifies this, handler, handler.diagnostics
      ensures Pumped(handler, old(handler.State()), old(Stream()), old(last), taken, result)
      ensures result == Cancelled ==>
                exists t: nat :: taken <= t <= taken + |old(incoming)| && FirstDone(cancelled, t)
    {
      ghost var received, start, tail := Stream(), handler.State(), last;
      var turn := 0;
      taken := 0;
      assert Pumping(handler, start, received, tail, taken);
      while true
        invariant Pumping(handler, start, received, tail, taken)
        invariant taken <= turn <= taken + |old(incoming)| - |incoming|
        invariant NotDone(cancelled, turn)
        decreases |Stream()|, |incoming|
      {
        hide Pumping, Pumped, NotDone;
        if cancelled(turn) {
          assert FirstDone(cancelled, turn) && turn <= taken + |old(incoming)|;
          CancelledNow(handler, start, received, tail, taken);
          return Cancelled, taken;
        }
        NotDoneYet(cancelled, turn);
        turn := turn + 1;
        var ended;
        ghost var now;
        ended, result, now := Turn(handler, start, received, tail, taken);
        taken := now;
        if ended {
          return;
        }
      }
    }
  }

  /** When no further item can be taken, all have been. */
  lemma AtTheEnd(whole: Scanned, taken: nat, stream: seq<Byte>)
    requires Remaining(whole, taken, Scan(stream)) && !Next(stream).Complete?
    ensures taken == |whole.items| && whole.items[..taken] == whole.items && whole.rest == stream
    ensures match Next(stream)
            case NeedMore => whole.ending == Starved
            case BadResponse => whole.ending == EndedBad
            case _ => whole.ending == EndedPanic
  {
  }
}

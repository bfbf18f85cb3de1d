// The Tux line discipline as values: what every call does to the two queues and to
// the bytes kept for the framer, and that no run of calls loses anything.
module LineSpec {
  import opened Arith
  import opened Framer

  const TUXCTL_BUFSIZE := 64
  const PACKET_BUF := 12

  // What a buffer holds when it is full.
  const CAPACITY := TUXCTL_BUFSIZE - 1

  // The bytes queued in each direction, and those kept for the next callback.
  datatype Line = Line(rx: seq<bv8>, tx: seq<bv8>, rest: seq<bv8>) {
    predicate Legal() { |rx| <= CAPACITY && |tx| <= CAPACITY && |rest| <= 2 }
  }

  // What may happen to the line, in any order.
  datatype Event = Received(cp: seq<bv8>) | Read(n: int) | Written(buf: seq<bv8>, room: int) | Wakeup(room: int)

  // The bytes an event puts into the queue it works on, those it takes out, and the
  // packets handed to tuxctl_handle_packet.
  datatype Output = Output(accepted: seq<bv8>, handed: seq<bv8>, packets: seq<seq<bv8>>)

  // How many bytes a wakeup passes to a driver with room for `room`.
  function WakeupCount(used: int, room: int): int {
    if room < 0 then 0 else Min(used, room + 1)
  }

  // The loop test n <= room passes one byte more than the driver has room for:
  // nothing is lost exactly when everything queued fits.
  lemma WakeupFitsIff(used: int, room: int)
    requires 0 <= used <= CAPACITY && 0 <= room
    ensures WakeupCount(used, room) <= room <==> used <= room
    ensures used > room ==> WakeupCount(used, room) == room + 1
  {}

  // What fits behind a queue of `used` bytes.
  function Fitting(cp: seq<bv8>, used: int): seq<bv8>
    requires used <= CAPACITY
  {
    cp[..Min(|cp|, CAPACITY - used)]
  }

  // The first n bytes of a queue, or all of it.
  function Front(q: seq<bv8>, n: int): seq<bv8> { q[..if n < 0 then 0 else Min(n, |q|)] }

  function Effect(l: Line, e: Event): (Line, Output)
    requires l.Legal()
  {
    match e
    case Received(cp) =>
      var accepted := Fitting(cp, |l.rx|);
      var q := l.rx + accepted;
      var got := Front(q, PACKET_BUF - |l.rest|);
      var scan := Scan(l.rest + got);
      (Line(q[|got|..], l.tx, scan.rest), Output(accepted, got, scan.packets))
    case Read(n) =>
      var out := Front(l.rx, n);
      (l.(rx := l.rx[|out|..]), Output([], out, []))
    case Written(buf, room) =>
      var accepted := Fitting(buf, |l.tx|);
      var q := l.tx + accepted;
      var passed := q[..WakeupCount(|q|, room)];
      (l.(tx := q[|passed|..]), Output(accepted, passed, []))
    case Wakeup(room) =>
      var passed := l.tx[..WakeupCount(|l.tx|, room)];
      (l.(tx := l.tx[|passed|..]), Output([], passed, []))
  }

  // Every call moves as much as it can.  A byte is refused only when the queue is
  // full, and the callback leaves a byte queued only when it holds twelve; a reader
  // gets what he asks for or all there is; and a write or a wakeup leaves bytes
  // queued only when it has passed one more than there was room for.
  lemma MovesAll(l: Line, e: Event)
    requires l.Legal()
    ensures var l', out := Effect(l, e).0, Effect(l, e).1;
      match e
      case Received(cp) =>
        && out.accepted <= cp && (out.accepted == cp || |l.rx| + |out.accepted| == 63)
        && |l.rest| + |out.handed| <= 12 && (l'.rx == [] || |l.rest| + |out.handed| == 12)
      case Read(n) =>
        (n <= 0 ==> out.handed == []) && (n > 0 ==> |out.handed| == n || (|out.handed| < n && l'.rx == []))
      case Written(buf, room) =>
        && out.accepted <= buf && (out.accepted == buf || |l.tx| + |out.accepted| == 63)
        && (room < 0 ==> out.handed == []) && (room >= 0 && l'.tx != [] ==> |out.handed| == room + 1)
        && (room >= 0 ==> |out.handed| <= room + 1)
      case Wakeup(room) =>
        && (room < 0 ==> out.handed == []) && (room >= 0 && l'.tx != [] ==> |out.handed| == room + 1)
        && (room >= 0 ==> |out.handed| <= room + 1)
  {
    hide Scan;
  }

  lemma EffectLegal(l: Line, e: Event)
    requires l.Legal()
    ensures Effect(l, e).0.Legal()
  {
    hide Scan;
  }

  // A whole run of calls, and what each of them did.
  function Effects(l: Line, events: seq<Event>): (r: (Line, seq<Output>))
    requires l.Legal()
    ensures r.0.Legal() && |r.1| == |events|
    decreases |events|
  {
    if events == [] then (l, [])
    else
      EffectLegal(l, events[0]);
      var first := Effect(l, events[0]);
      var rest := Effects(first.0, events[1..]);
      (rest.0, [first.1] + rest.1)
  }

  // ----- the streams of a run -----

  // The events of each direction.
  predicate OnRx(e: Event) { e.Received? || e.Read? }

  predicate OnTx(e: Event) { e.Written? || e.Wakeup? }

  // What a run puts into the queue that the chosen events work on.
  function Accepted(on: Event -> bool, events: seq<Event>, outs: seq<Output>): seq<bv8>
    requires |outs| == |events|
    decreases |events|
  {
    if events == [] then []
    else (if on(events[0]) then outs[0].accepted else []) + Accepted(on, events[1..], outs[1..])
  }

  // What a run takes out of it.
  function Handed(on: Event -> bool, events: seq<Event>, outs: seq<Output>): seq<bv8>
    requires |outs| == |events|
    decreases |events|
  {
    if events == [] then []
    else (if on(events[0]) then outs[0].handed else []) + Handed(on, events[1..], outs[1..])
  }

  // Everything that has passed through a line.
  datatype Streams = Streams(
    rxAccepted: seq<bv8>, rxRead: seq<bv8>, txAccepted: seq<bv8>, txPassed: seq<bv8>,
    scanned: seq<bv8>, packets: seq<seq<bv8>>)

  function Extend(s: Streams, e: Event, out: Output): Streams {
    Streams(
      if OnRx(e) then s.rxAccepted + out.accepted else s.rxAccepted,
      if OnRx(e) then s.rxRead + out.handed else s.rxRead,
      if OnTx(e) then s.txAccepted + out.accepted else s.txAccepted,
      if OnTx(e) then s.txPassed + out.handed else s.txPassed,
      if OnCallback(e) then s.scanned + out.handed else s.scanned,
      s.packets + out.packets)
  }

  function ExtendAll(s: Streams, events: seq<Event>, outs: seq<Output>): Streams
    requires |outs| == |events|
    decreases |events|
  {
    if events == [] then s else ExtendAll(Extend(s, events[0], outs[0]), events[1..], outs[1..])
  }

  // A run extends every stream by what the calls of its direction have moved.
  lemma {:induction false} StreamsOfRun(s: Streams, events: seq<Event>, outs: seq<Output>)
    requires |outs| == |events|
    ensures var t := ExtendAll(s, events, outs);
      && t.rxAccepted == s.rxAccepted + Accepted(OnRx, events, outs)
      && t.rxRead == s.rxRead + Handed(OnRx, events, outs)
      && t.txAccepted == s.txAccepted + Accepted(OnTx, events, outs)
      && t.txPassed == s.txPassed + Handed(OnTx, events, outs)
      && t.scanned == s.scanned + Handed(OnCallback, events, outs) && t.packets == s.packets + AllPackets(outs)
    decreases |events|
  {
    if events != [] {
      var e, out, s1 := events[0], outs[0], Extend(s, events[0], outs[0]);
      StreamsOfRun(s1, events[1..], outs[1..]);
      hide OnRx, OnTx, OnCallback;
      Onward(OnRx(e), s.rxAccepted, out.accepted, s1.rxAccepted, Accepted(OnRx, events[1..], outs[1..]));
      Onward(OnRx(e), s.rxRead, out.handed, s1.rxRead, Handed(OnRx, events[1..], outs[1..]));
      Onward(OnTx(e), s.txAccepted, out.accepted, s1.txAccepted, Accepted(OnTx, events[1..], outs[1..]));
      Onward(OnTx(e), s.txPassed, out.handed, s1.txPassed, Handed(OnTx, events[1..], outs[1..]));
      Onward(OnCallback(e), s.scanned, out.handed, s1.scanned, Handed(OnCallback, events[1..], outs[1..]));
      Onward(true, s.packets, out.packets, s1.packets, AllPackets(outs[1..]));
    }
  }

  lemma Onward<T>(on: bool, a: seq<T>, x: seq<T>, a1: seq<T>, rest: seq<T>)
    requires a1 == if on then a + x else a
    ensures a1 + rest == a + ((if on then x else []) + rest)
  {}

  function AllPackets(outs: seq<Output>): seq<seq<bv8>> {
    if outs == [] then [] else outs[0].packets + AllPackets(outs[1..])
  }

  // The first event of a run, and the rest of it.
  lemma FirstEvent(l: Line, events: seq<Event>, on: Event -> bool)
    requires l.Legal() && events != []
    ensures Effect(l, events[0]).0.Legal()
    ensures var first := Effect(l, events[0]);
      var later, r := Effects(first.0, events[1..]), Effects(l, events);
      && r.0 == later.0 && r.1 == [first.1] + later.1
      && Accepted(on, events, r.1)
          == (if on(events[0]) then first.1.accepted else []) + Accepted(on, events[1..], later.1)
      && Handed(on, events, r.1)
          == (if on(events[0]) then first.1.handed else []) + Handed(on, events[1..], later.1)
      && AllPackets(r.1) == first.1.packets + AllPackets(later.1)
  {
    EffectLegal(l, events[0]);
    hide Effect, Line.Legal;
    var later, r := Effects(Effect(l, events[0]).0, events[1..]), Effects(l, events);
    assert r.1[1..] == later.1;
  }

  // Both queues are first in, first out, and lose nothing they have accepted: what
  // was queued and what a run has put in is what it has taken out and what is
  // queued now.
  lemma {:induction false} RunLosesNothing(l: Line, events: seq<Event>)
    requires l.Legal()
    ensures var r := Effects(l, events);
      && l.rx + Accepted(OnRx, events, r.1) == Handed(OnRx, events, r.1) + r.0.rx
      && l.tx + Accepted(OnTx, events, r.1) == Handed(OnTx, events, r.1) + r.0.tx
    decreases |events|
  {
    if events != [] {
      var e := events[0];
      FirstEvent(l, events, OnRx);
      FirstEvent(l, events, OnTx);
      var first := Effect(l, e);
      var later := Effects(first.0, events[1..]);
      RunLosesNothing(first.0, events[1..]);
      EffectLosesNothing(l, e);
      hide *;
      hide OnRx, OnTx;
      Spliced(l.rx, if OnRx(e) then first.1.accepted else [], if OnRx(e) then first.1.handed else [], first.0.rx,
        Accepted(OnRx, events[1..], later.1), Handed(OnRx, events[1..], later.1), later.0.rx);
      Spliced(l.tx, if OnTx(e) then first.1.accepted else [], if OnTx(e) then first.1.handed else [], first.0.tx,
        Accepted(OnTx, events[1..], later.1), Handed(OnTx, events[1..], later.1), later.0.tx);
    }
  }

  lemma EffectLosesNothing(l: Line, e: Event)
    requires l.Legal()
    ensures var r := Effect(l, e);
      && l.rx + (if OnRx(e) then r.1.accepted else []) == (if OnRx(e) then r.1.handed else []) + r.0.rx
      && l.tx + (if OnTx(e) then r.1.accepted else []) == (if OnTx(e) then r.1.handed else []) + r.0.tx
  {
    hide Scan;
  }

  lemma Spliced(q: seq<bv8>, a: seq<bv8>, h: seq<bv8>, q1: seq<bv8>, as1: seq<bv8>, hs1: seq<bv8>, q2: seq<bv8>)
    requires q + a == h + q1 && q1 + as1 == hs1 + q2
    ensures q + (a + as1) == (h + hs1) + q2
  {
    assert q + (a + as1) == (q + a) + as1;
    assert (h + q1) + as1 == h + (q1 + as1);
    assert h + (hs1 + q2) == (h + hs1) + q2;
  }

  // What the callback has read in a run.
  predicate OnCallback(e: Event) { e.Received? }

  // The packets handed on in a run are those of the bytes that the callback had
  // kept and has read, but for the bytes it keeps now.
  lemma {:induction false} RunFrames(l: Line, events: seq<Event>, stream: seq<bv8>, packets: seq<seq<bv8>>)
    requires l.Legal() && Framing(stream, packets, l.rest)
    ensures var r := Effects(l, events);
      Framing(stream + Handed(OnCallback, events, r.1), packets + AllPackets(r.1), r.0.rest)
    decreases |events|
  {
    hide Framing, Scan, Effect, Packets;
    if events == [] {
      assert stream + [] == stream && packets + [] == packets;
    } else {
      FirstEvent(l, events, OnCallback);
      var first := Effect(l, events[0]);
      var later := Effects(first.0, events[1..]);
      var h, p := if OnCallback(events[0]) then first.1.handed else [], first.1.packets;
      EffectFrames(l, events[0], stream, packets);
      RunFrames(first.0, events[1..], stream + h, packets + p);
      hide *;
      hide OnCallback;
      var hs, ps := Handed(OnCallback, events[1..], later.1), AllPackets(later.1);
      assert stream + h + hs == stream + (h + hs) && packets + p + ps == packets + (p + ps);
    }
  }

  lemma EffectFrames(l: Line, e: Event, stream: seq<bv8>, packets: seq<seq<bv8>>)
    requires l.Legal() && Framing(stream, packets, l.rest)
    ensures var r := Effect(l, e);
      Framing(stream + (if OnCallback(e) then r.1.handed else []), packets + r.1.packets, r.0.rest)
  {
    hide Framing, Scan;
    assert stream + [] == stream && packets + [] == packets;
    if e.Received? {
      FramingStep(stream, packets, l.rest, Effect(l, e).1.handed);
    }
  }

  // From the start, the packets handed on are the packets of the bytes accepted from
  // the line and read by the callback.
  lemma RunPackets(events: seq<Event>)
    ensures var r := Effects(Line([], [], []), events);
      AllPackets(r.1) == Packets(Handed(OnCallback, events, r.1))
  {
    var r := Effects(Line([], [], []), events);
    FramingStart();
    RunFrames(Line([], [], []), events, [], []);
    hide Framing, Effects;
    assert [] + Handed(OnCallback, events, r.1) == Handed(OnCallback, events, r.1)
      && [] + AllPackets(r.1) == AllPackets(r.1);
    FramingExact(Handed(OnCallback, events, r.1), AllPackets(r.1), r.0.rest);
  }

  // When nobody else reads, the bytes the callback reads are those received: the
  // packets are exactly those of the accepted stream, up to what is still queued.
  lemma {:induction false} OnlyCallback(events: seq<Event>, outs: seq<Output>)
    requires |outs| == |events| && forall i :: 0 <= i < |events| ==> !events[i].Read?
    ensures Handed(OnCallback, events, outs) == Handed(OnRx, events, outs)
    decreases |events|
  {
    if events != [] {
      assert !events[0].Read?;
      OnlyCallback(events[1..], outs[1..]);
    }
  }

  // All bytes that come from the line.
  function ReceivedAll(events: seq<Event>): seq<bv8> {
    if events == [] then []
    else (if events[0].Received? then events[0].cp else []) + ReceivedAll(events[1..])
  }

  // As many as the callback has room for when it keeps two.
  const CHUNK := PACKET_BUF - 2

  predicate SmallChunks(events: seq<Event>) {
    forall i :: 0 <= i < |events| && events[i].Received? ==> |events[i].cp| <= CHUNK
  }

  // From an empty receive queue, when the bytes come in chunks of at most ten, none
  // is dropped, the callback reads all of them, and the queue is empty after each.
  lemma {:induction false} NothingDropped(l: Line, events: seq<Event>)
    requires l.Legal() && l.rx == [] && SmallChunks(events)
    ensures var r := Effects(l, events);
      && r.0.rx == [] && Accepted(OnRx, events, r.1) == ReceivedAll(events)
      && Handed(OnCallback, events, r.1) == ReceivedAll(events)
    decreases |events|
  {
    if events != [] {
      var first := Effect(l, events[0]);
      FirstEvent(l, events, OnRx);
      FirstEvent(l, events, OnCallback);
      ChunkPasses(l, events[0]);
      hide Effect, Effects, Line.Legal;
      NothingDropped(first.0, events[1..]);
    }
  }

  lemma ChunkPasses(l: Line, e: Event)
    requires l.Legal() && l.rx == [] && (e.Received? ==> |e.cp| <= CHUNK)
    ensures var r := Effect(l, e);
      && r.0.rx == [] && (e.Received? ==> r.1.accepted == e.cp && r.1.handed == e.cp)
      && (e.Read? ==> r.1.accepted == [])
  {
    hide Scan;
  }

  // Then, from the start, the packets handed on are exactly those of all bytes that
  // have come.
  lemma PacketsOfReceived(events: seq<Event>)
    requires SmallChunks(events)
    ensures AllPackets(Effects(Line([], [], []), events).1) == Packets(ReceivedAll(events))
  {
    RunPackets(events);
    NothingDropped(Line([], [], []), events);
    hide Packets;
  }
}

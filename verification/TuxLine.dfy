// The line discipline of the Tux controller (tuxctl-ld.c): a ring buffer for each
// direction, and the framer that takes packets out of the receive buffer.
module TuxLineModule {
  import opened Arith
  import opened Framer
  import opened LineSpec

  // buf_used
  function BufUsed(start: int, end: int): int {
    if start <= end then end - start else TUXCTL_BUFSIZE + end - start
  }

  // buf_room
  function BufRoom(start: int, end: int): int { TUXCTL_BUFSIZE - BufUsed(start, end) - 1 }

  // buf_empty
  predicate BufEmpty(start: int, end: int) { start == end }

  // buf_full
  predicate BufFull(start: int, end: int) { (end + 1) % TUXCTL_BUFSIZE == start }

  // buf_incidx
  function BufInc(idx: int): int { (idx + 1) % TUXCTL_BUFSIZE }

  // The bytes queued in the buffer b, oldest first.
  function Queue(b: seq<bv8>, start: int, end: int): seq<bv8>
    requires |b| == TUXCTL_BUFSIZE && 0 <= start < TUXCTL_BUFSIZE && 0 <= end < TUXCTL_BUFSIZE
  {
    if start <= end then b[start..end] else b[start..] + b[..end]
  }

  lemma PushQueue(b: seq<bv8>, start: int, end: int, x: bv8)
    requires |b| == TUXCTL_BUFSIZE && 0 <= start < TUXCTL_BUFSIZE && 0 <= end < TUXCTL_BUFSIZE && !BufFull(start, end)
    ensures Queue(b[end := x], start, BufInc(end)) == Queue(b, start, end) + [x]
  {
    if start <= end { PushBehind(b, start, end, x); } else { PushBefore(b, start, end, x); }
  }

  lemma PushBehind(b: seq<bv8>, start: int, end: int, x: bv8)
    requires 0 <= start <= end < |b|
    ensures b[end := x][start..end + 1] == b[start..end] + [x]
    ensures end + 1 == |b| ==> b[end := x][start..] + b[end := x][..0] == b[start..end] + [x]
  {}

  lemma PushBefore(b: seq<bv8>, start: int, end: int, x: bv8)
    requires 0 <= end < start < |b|
    ensures b[end := x][start..] + b[end := x][..end + 1] == b[start..] + b[..end] + [x]
  {
    assert b[end := x][start..] == b[start..] && b[end := x][..end + 1] == b[..end] + [x];
  }

  lemma PopQueue(b: seq<bv8>, start: int, end: int)
    requires |b| == TUXCTL_BUFSIZE && 0 <= start < TUXCTL_BUFSIZE && 0 <= end < TUXCTL_BUFSIZE && !BufEmpty(start, end)
    ensures Queue(b, start, end) == [b[start]] + Queue(b, BufInc(start), end)
  {
    var next := if start + 1 == TUXCTL_BUFSIZE then 0 else start + 1;
    assert BufInc(start) == next;
    hide BufInc;
    if start < end {
      PopInside(b, start, end);
      assert Queue(b, start, end) == b[start..end] && Queue(b, next, end) == b[start + 1..end];
    } else if start + 1 == TUXCTL_BUFSIZE {
      PopLast(b, end);
      assert Queue(b, start, end) == b[start..] + b[..end] && Queue(b, next, end) == b[0..end];
    } else {
      PopAround(b, start, end);
      assert Queue(b, start, end) == b[start..] + b[..end] && Queue(b, next, end) == b[start + 1..] + b[..end];
    }
    hide *;
  }

  lemma PopInside(b: seq<bv8>, start: int, end: int)
    requires 0 <= start < end <= |b|
    ensures b[start..end] == [b[start]] + b[start + 1..end]
  {}

  lemma PopLast(b: seq<bv8>, end: int)
    requires 0 <= end <= |b| && |b| > 0
    ensures b[|b| - 1..] + b[..end] == [b[|b| - 1]] + b[0..end]
  {}

  lemma PopAround(b: seq<bv8>, start: int, end: int)
    requires 0 <= end <= start < |b|
    ensures b[start..] + b[..end] == [b[start]] + (b[start + 1..] + b[..end])
  {}

  class Ring {
    const buf: array<bv8>
    var start: int
    var end: int

    ghost predicate Valid()
      reads this
    {
      buf.Length == TUXCTL_BUFSIZE && 0 <= start < TUXCTL_BUFSIZE && 0 <= end < TUXCTL_BUFSIZE
    }

    // The queued bytes, oldest first.
    ghost function Contents(): (s: seq<bv8>)
      requires Valid()
      reads this, buf
      ensures |s| == BufUsed(start, end) && |s| <= TUXCTL_BUFSIZE - 1
    {
      Queue(buf[..], start, end)
    }

    constructor ()
      ensures Valid() && Contents() == [] && fresh(buf)
    {
      buf := new bv8[TUXCTL_BUFSIZE](_ => 0);
      start, end := 0, 0;
    }

    method Push(b: bv8)
      requires Valid() && !BufFull(start, end)
      modifies `end, buf
      ensures Valid() && Contents() == old(Contents()) + [b]
    {
      PushQueue(buf[..], start, end, b);
      ghost var after := buf[..][end := b];
      buf[end] := b;
      end := BufInc(end);
      assert buf[..] == after;
    }

    method Pop() returns (b: bv8)
      requires Valid() && !BufEmpty(start, end)
      modifies `start
      ensures Valid() && old(Contents()) == [b] + Contents()
    {
      PopQueue(buf[..], start, end);
      b := buf[start];
      start := BufInc(start);
    }

    // The macros say what they should about the queue.
    lemma Macros()
      requires Valid()
      ensures BufUsed(start, end) == |Contents()| && BufRoom(start, end) == TUXCTL_BUFSIZE - 1 - |Contents()|
      ensures BufEmpty(start, end) <==> Contents() == []
      ensures BufFull(start, end) <==> |Contents()| == TUXCTL_BUFSIZE - 1
    {}

    // The loop of rcv_buf and put: queues bytes until the buffer is full.
    method PushSome(cp: seq<bv8>) returns (c: int)
      requires Valid()
      modifies this, buf
      ensures Valid() && c == Min(|cp|, TUXCTL_BUFSIZE - 1 - |old(Contents())|) && c >= 0
      ensures Contents() == old(Contents()) + cp[..c]
    {
      c := 0;
      hide Contents;
      Macros();
      while c < |cp| && !BufFull(start, end)
        invariant 0 <= c <= |cp| && Valid() && Contents() == old(Contents()) + cp[..c]
        decreases |cp| - c
      {
        Push(cp[c]);
        c := c + 1;
        Macros();
      }
      Macros();
    }

    // The loop of get and write_wakeup: takes up to n bytes out.
    method PopSome(n: int) returns (out: seq<bv8>)
      requires Valid()
      modifies this
      ensures Valid() && |out| == if n < 0 then 0 else Min(n, |old(Contents())|)
      ensures old(Contents()) == out + Contents()
    {
      out := [];
      hide Contents;
      Macros();
      while |out| < n && !BufEmpty(start, end)
        invariant Valid() && old(Contents()) == out + Contents() && (|out| <= n || n < 0) && (n < 0 ==> out == [])
        decreases n - |out|
      {
        var b := Pop();
        out := out + [b];
        Macros();
      }
      Macros();
    }
  }

  // The loop of tuxctl_ldisc_data_callback: looks at every byte as the beginning of
  // a packet except the last two; `found` is what tuxctl_handle_packet is given.
  method ScanBuffer(packet: seq<bv8>) returns (found: seq<seq<bv8>>, i: int)
    ensures 0 <= i <= |packet| && |packet| - i <= 2
    ensures found == Scan(packet).packets && packet[i..] == Scan(packet).rest
    ensures found == Packets(packet)
  {
    var n := |packet|;
    found, i := [], 0;
    while i < n - 2
      invariant 0 <= i <= n
      invariant Scan(packet) == Scanned(found + Scan(packet[i..]).packets, Scan(packet[i..]).rest)
      decreases n - i
    {
      var p := packet[i..];
      if !High(p[0]) && High(p[1]) && High(p[2]) {
        assert p[3..] == packet[i + 3..];
        found := found + [p[..3]];
        i := i + 3;
      } else {
        assert p[1..] == packet[i + 1..];
        i := i + 1;
      }
    }
    assert Scan(packet[i..]) == Scanned([], packet[i..]);
    ScanLosesNothing(packet, []);
    assert packet + [] == packet && packet[i..] + [] == packet[i..];
  }

  class TuxLine {
    const rx: Ring
    const tx: Ring
    const saved: array<bv8>    // the static bytes of tuxctl_ldisc_data_callback
    var nSaved: int

    // What has passed through, for the specification.
    ghost var rxAccepted: seq<bv8>      // received and not dropped
    ghost var rxRead: seq<bv8>          // handed out by Get
    ghost var txAccepted: seq<bv8>      // taken by Put
    ghost var txPassed: seq<bv8>        // passed to the driver
    ghost var scanned: seq<bv8>         // read by the callback
    ghost var packets: seq<seq<bv8>>    // handed to tuxctl_handle_packet

    ghost predicate Valid()
      reads this, rx, tx, rx.buf, tx.buf, saved
    {
      && rx != tx && rx.buf != tx.buf && saved != rx.buf && saved != tx.buf
      && rx.Valid() && tx.Valid() && saved.Length == 2
      && rxAccepted == rxRead + rx.Contents()
      && txAccepted == txPassed + tx.Contents()
      && 0 <= nSaved <= 2 && Framing(scanned, packets, saved[..nSaved])
    }

    constructor ()
      ensures Valid() && rx.Contents() == [] && tx.Contents() == [] && packets == [] && scanned == []
    {
      rx := new Ring();
      tx := new Ring();
      saved := new bv8[2](_ => 0);
      nSaved := 0;
      rxAccepted, rxRead, txAccepted, txPassed, scanned, packets := [], [], [], [], [], [];
      new;
      FramingStart();
    }

    // The queues and the bytes kept for the framer.
    ghost function State(): (l: Line)
      requires Valid()
      reads this, rx, tx, rx.buf, tx.buf, saved
      ensures l.Legal()
    {
      Line(rx.Contents(), tx.Contents(), saved[..nSaved])
    }

    // tuxctl_ldisc_rcv_buf: what does not fit is dropped, then the callback runs.
    method RcvBuf(cp: seq<bv8>) returns (c: int, got: seq<bv8>, found: seq<seq<bv8>>)
      requires Valid()
      modifies this, rx, rx.buf, saved
      ensures Valid() && txAccepted == old(txAccepted) && txPassed == old(txPassed)
      ensures 0 <= c == Min(|cp|, CAPACITY - |old(rx.Contents())|)
      ensures (State(), Output(cp[..c], got, found)) == Effect(old(State()), Received(cp))
      ensures rxAccepted == old(rxAccepted) + cp[..c] && rxRead == old(rxRead) + got
      ensures scanned == old(scanned) + got && packets == old(packets) + found
    {
      hide Framing, Ring.Contents, Scan;
      ghost var kept := saved[..nSaved];
      c := rx.PushSome(cp);
      rxAccepted := rxAccepted + cp[..c];
      assert saved[..nSaved] == kept;
      got, found := DataCallback();
    }

    // tuxctl_ldisc_get
    method Get(n: int) returns (out: seq<bv8>)
      requires Valid()
      modifies `rxRead, rx
      ensures Valid()
      ensures out == Front(old(rx.Contents()), n) && rx.Contents() == old(rx.Contents())[|out|..]
      ensures rxRead == old(rxRead) + out
    {
      hide Framing, Ring.Contents;
      out := rx.PopSome(n);
      rxRead := rxRead + out;
      assert old(rx.Contents())[..|out|] == out;
    }

    // tuxctl_ldisc_write_wakeup, for a driver with room for `room` bytes: returns
    // what it passes to the driver.
    method WriteWakeup(room: int) returns (passed: seq<bv8>)
      requires Valid()
      modifies `txPassed, tx
      ensures Valid() && |passed| < TUXCTL_BUFSIZE
      ensures passed == old(tx.Contents())[..WakeupCount(|old(tx.Contents())|, room)]
      ensures tx.Contents() == old(tx.Contents())[|passed|..] && txPassed == old(txPassed) + passed
    {
      hide Framing, Ring.Contents;
      // the loop test is n <= room
      passed := tx.PopSome(room + 1);
      txPassed := txPassed + passed;
      assert old(tx.Contents())[..|passed|] == passed;
    }

    // tuxctl_ldisc_put: returns how many bytes were not taken.
    method Put(buf: seq<bv8>, room: int) returns (left: int, passed: seq<bv8>)
      requires Valid()
      modifies `txAccepted, `txPassed, tx, tx.buf
      ensures Valid() && 0 <= left == |buf| - Min(|buf|, CAPACITY - |old(tx.Contents())|)
      ensures (State(), Output(buf[..|buf| - left], passed, [])) == Effect(old(State()), Written(buf, room))
      ensures txAccepted == old(txAccepted) + buf[..|buf| - left] && txPassed == old(txPassed) + passed
    {
      hide Framing, Ring.Contents;
      ghost var kept := saved[..nSaved];
      var c := tx.PushSome(buf);
      left := |buf| - c;
      txAccepted := txAccepted + buf[..|buf| - left];
      assert saved[..nSaved] == kept;
      passed := WriteWakeup(room);
    }

    // tuxctl_ldisc_data_callback: at most 12 bytes, those saved last time included.
    // Returns the bytes it has read and the packets it has handed on.
    method DataCallback() returns (got: seq<bv8>, found: seq<seq<bv8>>)
      requires Valid()
      modifies `nSaved, `rxRead, `scanned, `packets, rx, saved
      ensures Valid()
      ensures got == Front(old(rx.Contents()), PACKET_BUF - old(nSaved)) && rx.Contents() == old(rx.Contents())[|got|..]
      ensures Scan(old(saved[..nSaved]) + got) == Scanned(found, saved[..nSaved])
      ensures rxRead == old(rxRead) + got && scanned == old(scanned) + got
      ensures packets == old(packets) + found && packets == Packets(scanned)
    {
      hide Framing, Packets, Scan, Ring.Contents;
      ghost var saved0 := saved[..nSaved];
      got := Get(PACKET_BUF - nSaved);
      var packet := saved[..nSaved] + got;
      FramingStep(scanned, packets, saved0, got);
      var i;
      found, i := ScanBuffer(packet);
      packets := packets + found;
      SaveRest(packet, i);
      scanned := scanned + got;
      FramingExact(scanned, packets, saved[..nSaved]);
    }

    // Save the leftovers.
    method SaveRest(packet: seq<bv8>, i: int)
      requires saved.Length == 2 && 0 <= i <= |packet| && |packet| - i <= 2
      modifies `nSaved, saved
      ensures nSaved == |packet| - i && saved[..nSaved] == packet[i..]
    {
      nSaved := |packet| - i;
      var j := 0;
      while j < nSaved
        modifies saved
        invariant 0 <= j <= nSaved && saved[..j] == packet[i..i + j]
      {
        saved[j] := packet[i + j];
        j := j + 1;
      }
    }

    ghost function Passed(): Streams
      reads this
    {
      Streams(rxAccepted, rxRead, txAccepted, txPassed, scanned, packets)
    }

    method ServeOne(e: Event) returns (out: Output)
      requires Valid()
      modifies this, rx, rx.buf, tx, tx.buf, saved
      ensures Valid() && (State(), out) == Effect(old(State()), e) && Passed() == Extend(old(Passed()), e, out)
    {
      hide Framing, Packets, Scan, Ring.Contents;
      ghost var kept := saved[..nSaved];
      match e {
        case Received(cp) =>
          var c, got, found := RcvBuf(cp);
          out := Output(cp[..c], got, found);
        case Read(n) =>
          var got := Get(n);
          assert saved[..nSaved] == kept;
          out := Output([], got, []);
        case Written(buf, room) =>
          var left, passed := Put(buf, room);
          out := Output(buf[..|buf| - left], passed, []);
        case Wakeup(room) =>
          var passed := WriteWakeup(room);
          assert saved[..nSaved] == kept;
          out := Output([], passed, []);
      }
    }

    // Any interleaving of calls: the queues, the bytes kept for the framer and the
    // outputs of every call are those of the run, and the streams of the line are
    // extended by what each call has moved.
    method Serve(events: seq<Event>) returns (outs: seq<Output>)
      requires Valid()
      modifies this, rx, rx.buf, tx, tx.buf, saved
      ensures Valid() && |outs| == |events| && (State(), outs) == Effects(old(State()), events)
      ensures Passed() == ExtendAll(old(Passed()), events, outs)
      ensures rxAccepted == rxRead + rx.Contents() && txAccepted == txPassed + tx.Contents()
      ensures packets == Packets(scanned)
      decreases |events|
    {
      hide Framing, Packets, Scan, Ring.Contents, Effect, Extend;
      if events == [] {
        outs := [];
      } else {
        FirstEvent(State(), events, OnRx);
        var out := ServeOne(events[0]);
        var later := Serve(events[1..]);
        outs := [out] + later;
        assert outs[1..] == later;
      }
      FramingExact(scanned, packets, saved[..nSaved]);
    }
  }
}

// Packets in the byte stream from the Tux controller (tuxctl-ld.c, and mtcp.h for
// the framing bits): three bytes whose high bits are 0, 1 and 1.
module Framer {
  predicate High(b: bv8) { b & 0x80 != 0 }

  // The framing bits at the front of s.
  predicate StartsPacket(s: seq<bv8>) {
    |s| >= 3 && !High(s[0]) && High(s[1]) && High(s[2])
  }

  // The high bit makes a byte 0x80 or more.
  lemma FramingBits(a: bv8, b: bv8, c: bv8)
    ensures StartsPacket([a, b, c]) <==> a < 0x80 && b >= 0x80 && c >= 0x80
  {
    HighBit(a);
    HighBit(b);
    HighBit(c);
    hide High;
  }

  lemma HighBit(b: bv8)
    ensures High(b) <==> b >= 0x80
  {}

  // The packets of a stream: every position is looked at.
  function Packets(s: seq<bv8>): seq<seq<bv8>> {
    if |s| < 3 then []
    else (if StartsPacket(s) then [s[..3]] else []) + Packets(s[1..])
  }

  // So the packets are, in order, what stands at exactly those positions of the
  // stream where the framing bits do.
  ghost predicate AtPositions(s: seq<bv8>, pos: seq<int>, packets: seq<seq<bv8>>) {
    && |packets| == |pos| && (forall j, k :: 0 <= j < k < |pos| ==> pos[j] < pos[k])
    && (forall j :: 0 <= j < |pos| ==> 0 <= pos[j] <= |s| - 3 && packets[j] == s[pos[j]..pos[j] + 3])
    && forall i :: 0 <= i <= |s| ==> (StartsPacket(s[i..]) <==> i in pos)
  }

  lemma {:induction false} PacketPositions(s: seq<bv8>) returns (pos: seq<int>)
    ensures AtPositions(s, pos, Packets(s))
  {
    if |s| < 3 {
      pos := [];
    } else {
      var later := PacketPositions(s[1..]);
      hide AtPositions;
      pos := (if StartsPacket(s) then [0] else []) + Shifted(later);
      OneMore(s, later, Packets(s[1..]));
    }
  }

  function Shifted(a: seq<int>): (b: seq<int>)
    ensures |b| == |a| && forall j :: 0 <= j < |a| ==> b[j] == a[j] + 1
  {
    seq(|a|, j requires 0 <= j < |a| => a[j] + 1)
  }

  lemma InShifted(a: seq<int>, i: int)
    ensures i in Shifted(a) <==> i - 1 in a
  {
    if i - 1 in a {
      var j :| 0 <= j < |a| && a[j] == i - 1;
      assert Shifted(a)[j] == i;
    }
  }

  lemma OneMore(s: seq<bv8>, later: seq<int>, rest: seq<seq<bv8>>)
    requires |s| >= 3 && AtPositions(s[1..], later, rest)
    ensures var found := StartsPacket(s);
      AtPositions(s, (if found then [0] else []) + Shifted(later), (if found then [s[..3]] else []) + rest)
  {
    var found := StartsPacket(s);
    var pos := (if found then [0] else []) + Shifted(later);
    var packets := (if found then [s[..3]] else []) + rest;
    hide StartsPacket, Shifted;
    forall i | 0 <= i <= |s| ensures StartsPacket(s[i..]) <==> i in pos {
      InShifted(later, i);
      if i == 0 {
        assert s[0..] == s && -1 !in later;
      } else {
        assert s[i..] == s[1..][i - 1..];
      }
    }
    forall j | 0 <= j < |pos| ensures 0 <= pos[j] <= |s| - 3 && packets[j] == s[pos[j]..pos[j] + 3] {
      var i := if found then j - 1 else j;
      if i >= 0 {
        assert pos[j] == later[i] + 1 && packets[j] == rest[i];
        assert s[1..][later[i]..later[i] + 3] == s[pos[j]..pos[j] + 3];
      }
    }
  }

  datatype Scanned = Scanned(packets: seq<seq<bv8>>, rest: seq<bv8>)

  // What one scan of a buffer hands on and keeps for the next time.
  function Scan(s: seq<bv8>): (r: Scanned)
    ensures |r.rest| <= 2
  {
    if |s| <= 2 then Scanned([], s)
    else if StartsPacket(s) then
      var r := Scan(s[3..]);
      Scanned([s[..3]] + r.packets, r.rest)
    else Scan(s[1..])
  }

  // A scan skips over the packet it found and stops two bytes early; nothing is
  // lost by either, whatever comes next.
  lemma {:induction false} ScanLosesNothing(s: seq<bv8>, t: seq<bv8>)
    ensures Packets(s + t) == Scan(s).packets + Packets(Scan(s).rest + t)
    decreases |s|
  {
    hide *;
    ScanUnfolds(s);
    if |s| > 2 && StartsPacket(s) {
      ScanLosesNothing(s[3..], t);
      FrontPacket(s, t);
      Regroup([s[..3]], Scan(s[3..]).packets, Packets(Scan(s[3..]).rest + t));
    } else if |s| > 2 {
      ScanLosesNothing(s[1..], t);
      FrontSkipped(s, t);
    }
  }

  lemma ScanUnfolds(s: seq<bv8>)
    ensures Scan(s) ==
      if |s| <= 2 then Scanned([], s)
      else if StartsPacket(s) then Scanned([s[..3]] + Scan(s[3..]).packets, Scan(s[3..]).rest)
      else Scan(s[1..])
  {
    hide StartsPacket;
  }

  lemma Regroup<T>(a: seq<T>, b: seq<T>, c: seq<T>)
    ensures a + (b + c) == (a + b) + c
  {}

  lemma FrontSkipped(s: seq<bv8>, t: seq<bv8>)
    requires |s| > 2 && !StartsPacket(s)
    ensures Packets(s + t) == Packets(s[1..] + t)
  {
    assert (s + t)[1..] == s[1..] + t;
    assert !StartsPacket(s + t);
    hide StartsPacket;
    ShiftPast(s + t);
  }

  // A packet does not overlap the next one.
  lemma FrontPacket(s: seq<bv8>, t: seq<bv8>)
    requires StartsPacket(s)
    ensures Packets(s + t) == [s[..3]] + Packets(s[3..] + t)
  {
    var u := s + t;
    assert StartsPacket(u) && !StartsPacket(u[1..]) && !StartsPacket(u[2..]);
    hide StartsPacket;
    assert u[..3] == s[..3] && u[1..][1..] == u[2..] && u[2..][1..] == s[3..] + t;
    ShiftPast(u[1..]);
    ShiftPast(u[2..]);
  }

  lemma ShiftPast(s: seq<bv8>)
    requires |s| > 0 && !StartsPacket(s)
    ensures Packets(s) == Packets(s[1..])
  {}

  function Flatten(chunks: seq<seq<bv8>>): seq<bv8> {
    if chunks == [] then [] else chunks[0] + Flatten(chunks[1..])
  }

  // Scanning chunk after chunk, the rest of each in front of the next.
  function Feed(rest: seq<bv8>, chunks: seq<seq<bv8>>): Scanned
    decreases |chunks|
  {
    if chunks == [] then Scanned([], rest)
    else
      var r := Scan(rest + chunks[0]);
      var f := Feed(r.rest, chunks[1..]);
      Scanned(r.packets + f.packets, f.rest)
  }

  lemma {:induction false} FeedLosesNothing(rest: seq<bv8>, chunks: seq<seq<bv8>>, t: seq<bv8>)
    requires |rest| <= 2
    ensures |Feed(rest, chunks).rest| <= 2
    ensures Packets(rest + Flatten(chunks) + t) == Feed(rest, chunks).packets + Packets(Feed(rest, chunks).rest + t)
    decreases |chunks|
  {
    hide Packets, Scan;
    if chunks == [] {
      assert rest + Flatten(chunks) + t == rest + t;
    } else {
      var r := Scan(rest + chunks[0]);
      var f := Feed(r.rest, chunks[1..]);
      ScanLosesNothing(rest + chunks[0], Flatten(chunks[1..]) + t);
      FeedLosesNothing(r.rest, chunks[1..], t);
      assert rest + Flatten(chunks) + t == (rest + chunks[0]) + (Flatten(chunks[1..]) + t);
      assert r.rest + Flatten(chunks[1..]) + t == r.rest + (Flatten(chunks[1..]) + t);
      assert r.packets + (f.packets + Packets(f.rest + t)) == (r.packets + f.packets) + Packets(f.rest + t);
    }
  }

  // However the stream is cut into chunks, exactly its packets are handed on.
  lemma FramerComplete(chunks: seq<seq<bv8>>)
    ensures Feed([], chunks).packets == Packets(Flatten(chunks))
  {
    FeedLosesNothing([], chunks, []);
    assert [] + Flatten(chunks) + [] == Flatten(chunks);
    assert Packets(Feed([], chunks).rest + []) == [];
  }

  lemma ChunkIndependence(a: seq<seq<bv8>>, b: seq<seq<bv8>>)
    requires Flatten(a) == Flatten(b)
    ensures Feed([], a).packets == Feed([], b).packets
  {
    FramerComplete(a);
    FramerComplete(b);
  }

  // What the driver knows between two callbacks.
  ghost predicate Framing(stream: seq<bv8>, packets: seq<seq<bv8>>, saved: seq<bv8>) {
    |saved| <= 2 && forall t :: Packets(stream + t) == packets + Packets(saved + t)
  }

  lemma FramingStart()
    ensures Framing([], [], [])
  {
    forall t ensures Packets([] + t) == [] + Packets([] + t) {}
  }

  lemma FramingStep(stream: seq<bv8>, packets: seq<seq<bv8>>, saved: seq<bv8>, got: seq<bv8>)
    requires Framing(stream, packets, saved)
    ensures var r := Scan(saved + got); Framing(stream + got, packets + r.packets, r.rest)
  {
    hide Packets, Scan;
    var r := Scan(saved + got);
    forall t
      ensures Packets(stream + got + t) == packets + r.packets + Packets(r.rest + t)
    {
      assert stream + got + t == stream + (got + t);
      assert saved + (got + t) == saved + got + t;
      ScanLosesNothing(saved + got, t);
      assert Packets(stream + (got + t)) == packets + Packets(saved + (got + t));
    }
  }

  // So far exactly the packets of the stream have been handed on.
  lemma FramingExact(stream: seq<bv8>, packets: seq<seq<bv8>>, saved: seq<bv8>)
    requires Framing(stream, packets, saved)
    ensures packets == Packets(stream)
  {
    assert stream + [] == stream && saved + [] == saved;
    assert Packets(stream + []) == packets + Packets(saved + []);
  }
}

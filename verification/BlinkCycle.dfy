// How long each character of a blinking location stays on the screen.
module BlinkCycle {
  import opened BlinkSpec
  import opened BlinkTwice

  // A length of 0 is counted down from 65536.
  function Lasting(length: u16): int { if length == 0 then 65536 else length }

  // A character stays as many ticks as the countdown says; the other one then starts
  // with its own length.
  lemma {:induction false} Stays(b: Blink, n: nat)
    requires b.status <= 1 && n <= Lasting(b.countdown)
    ensures n < Lasting(b.countdown) ==> TickN(b, n) == b.(countdown := TickN(b, n).countdown)
    ensures n == Lasting(b.countdown) && b.status == 1 ==> TickN(b, n) == b.(status := 0, countdown := b.offLength)
    ensures n == Lasting(b.countdown) && b.status == 0 ==> TickN(b, n) == b.(status := 1, countdown := b.onLength)
    decreases n
  {
    if n == 1 {
      assert TickN(b, 1) == TickN(TickOne(b), 0);
    } else if n > 1 {
      assert Lasting(Decremented(b)) == Lasting(b.countdown) - 1;
      Stays(TickOne(b), n - 1);
    }
  }

  // A new element is on for the on length, then off for the off length, and so on
  // for ever.
  lemma {:induction false} BlinkCycle(b: Blink, n: nat)
    ensures var on, off := Lasting(b.onLength), Lasting(b.offLength);
      && TickN(Started(b), n).status == (if n % (on + off) < on then 1 else 0)
      && TickN(Started(b), n).onChar == b.onChar && TickN(Started(b), n).offChar == b.offChar
    decreases n
  {
    var on, off := Lasting(b.onLength), Lasting(b.offLength);
    var s := Started(b);
    if n < on {
      Stays(s, n);
      Below(n, on + off);
    } else {
      Stays(s, on);
      var t := TickN(s, on);
      if n < on + off {
        Stays(t, n - on);
        TickNMore(s, on, n - on);
        Below(n, on + off);
      } else {
        Stays(t, off);
        TickNMore(s, on, off);
        assert TickN(s, on + off) == s;
        TickNMore(s, on + off, n - (on + off));
        BlinkCycle(b, n - (on + off));
        OneRound(n, on + off);
      }
    }
  }

  lemma Below(n: nat, p: nat)
    requires n < p
    ensures n % p == n
  {}

  lemma OneRound(n: nat, p: nat)
    requires 0 < p <= n
    ensures n % p == (n - p) % p
  {
    var q, r := (n - p) / p, (n - p) % p;
    assert n == p * (q + 1) + r;
    SameQuotient(p, q + 1, n / p, r, n % p);
  }

  // A quotient with its remainder is unique.
  lemma SameQuotient(p: nat, a: nat, b: nat, r: nat, s: nat)
    requires r < p && s < p && p * a + r == p * b + s
    ensures r == s
  {
    if a < b {
      MulMono(p, a + 1, b);
    } else if b < a {
      MulMono(p, b + 1, a);
    }
  }

  lemma MulMono(p: nat, a: nat, b: nat)
    requires a <= b
    ensures p * a <= p * b
  {}

  // ----- on the screen -----

  function Ticks(rs: seq<Request>): nat {
    if rs == [] then 0 else (if rs[0].Tick? then 1 else 0) + Ticks(rs[1..])
  }

  // No request removes the location or gives it another's timing.
  predicate LeavesAlone(rs: seq<Request>, location: int) {
    forall i :: 0 <= i < |rs| ==>
      (rs[i].Remove? ==> rs[i].location != location) && (rs[i].Sync? ==> rs[i].second != location)
  }

  // Whatever is done about other locations, an element is only ticked.
  lemma {:induction false} OnlyTicked(list: seq<Blink>, v: Video, rs: seq<Request>, i: int) returns (j: int)
    requires Good(list, v) && AddsUnlisted(list, v, rs) && 0 <= i < |list| && LeavesAlone(rs, list[i].location)
    ensures 0 <= j < |ServeAll(list, v, rs).0| && ServeAll(list, v, rs).0[j] == TickN(list[i], Ticks(rs))
    decreases |rs|
  {
    assert ValidList(list);
    hide Good, Serve;
    if rs == [] {
      j := i;
    } else {
      var next := Serve(list, v, rs[0]);
      ServeKeeps(list, v, rs[0]);
      var k := OnceServed(list, v, rs[0], i);
      assert LeavesAlone(rs[1..], list[i].location) && next.0[k].location == list[i].location;
      j := OnlyTicked(next.0, next.1, rs[1..], k);
    }
  }

  lemma OnceServed(list: seq<Blink>, v: Video, r: Request, i: int) returns (j: int)
    requires Good(list, v) && 0 <= i < |list|
    requires (r.Remove? ==> r.location != list[i].location) && (r.Sync? ==> r.second != list[i].location)
    ensures var after := Serve(list, v, r).0;
      0 <= j < |after| && after[j] == if r.Tick? then TickOne(list[i]) else list[i]
  {
    match r
    case Add(b) => j := if b.location < LOCATIONS then i + 1 else i;
    case Remove(l) => j := if l < LOCATIONS && Listed(list, l) && Find(list, l) < i then i - 1 else i;
    case Sync(first, second) => j := i;
    case Tick => j := i;
  }

  // After any requests that leave it alone, an added location shows its on character
  // when the ticks since then fall into the first part of the cycle, and its off
  // character otherwise.
  lemma BlinksOnScreen(list: seq<Blink>, v: Video, b: Blink, rs: seq<Request>)
    requires Good(list, v) && AddsUnlisted(list, v, [Request.Add(b)] + rs)
    requires b.location < LOCATIONS && LeavesAlone(rs, b.location)
    ensures var on, off := Lasting(b.onLength), Lasting(b.offLength);
      ServeAll(list, v, [Request.Add(b)] + rs).1[2 * b.location]
      == if Ticks(rs) % (on + off) < on then b.onChar else b.offChar
  {
    var run := [Request.Add(b)] + rs;
    assert run[1..] == rs;
    ServeKeeps(list, v, run[0]);
    var next := Serve(list, v, run[0]);
    assert next.0[0] == Started(b);
    var j := OnlyTicked(next.0, next.1, rs, 0);
    RunAgrees(next.0, next.1, rs);
    BlinkCycle(b, Ticks(rs));
    Unmoved(Started(b), Ticks(rs));
    ShownAt(ServeAll(next.0, next.1, rs).0, ServeAll(next.0, next.1, rs).1, j);
  }

  lemma {:induction false} Unmoved(b: Blink, n: nat)
    ensures TickN(b, n) == b.(countdown := TickN(b, n).countdown, status := TickN(b, n).status)
    ensures b.status <= 1 ==> TickN(b, n).status <= 1
    decreases n
  {
    if n > 0 { Unmoved(TickOne(b), n - 1); }
  }

  lemma ShownAt(list: seq<Blink>, v: Video, i: int)
    requires Good(list, v) && 0 <= i < |list|
    ensures list[i].location < LOCATIONS && v[2 * list[i].location] == Shown(list[i])
  {
    ValidAt(list, i);
  }

  // ----- synchronized locations -----

  // Two elements with the same timing, countdown and status keep the same status.
  lemma {:induction false} InStep(a: Blink, b: Blink, n: nat)
    requires a.onLength == b.onLength && a.offLength == b.offLength && a.countdown == b.countdown
    requires a.status == b.status
    ensures TickN(a, n).status == TickN(b, n).status
    decreases n
  {
    if n > 0 { InStep(TickOne(a), TickOne(b), n - 1); }
  }

  // After a sync, and any requests that leave both locations alone, both show their
  // on characters or both their off characters, as the first would have done anyway.
  lemma SyncedOnScreen(list: seq<Blink>, v: Video, i: int, j: int, rs: seq<Request>)
    requires Good(list, v) && 0 <= i < |list| && 0 <= j < |list| && (list[i].location > 0 || list[j].location > 0)
    requires var run := [Request.Sync(list[i].location, list[j].location)] + rs; AddsUnlisted(list, v, run)
    requires LeavesAlone(rs, list[i].location) && LeavesAlone(rs, list[j].location)
    ensures list[i].location < LOCATIONS && list[j].location < LOCATIONS
    ensures var screen := ServeAll(list, v, [Request.Sync(list[i].location, list[j].location)] + rs).1;
      if TickN(list[i], Ticks(rs)).status == 1
      then screen[2 * list[i].location] == list[i].onChar && screen[2 * list[j].location] == list[j].onChar
      else screen[2 * list[i].location] == list[i].offChar && screen[2 * list[j].location] == list[j].offChar
  {
    var run := [Request.Sync(list[i].location, list[j].location)] + rs;
    assert run[1..] == rs;
    ServeKeeps(list, v, run[0]);
    var next := Serve(list, v, run[0]);
    SyncServed(list, v, i, j);
    var p := OnlyTicked(next.0, next.1, rs, i);
    var q := OnlyTicked(next.0, next.1, rs, j);
    RunAgrees(next.0, next.1, rs);
    InStep(list[i], next.0[j], Ticks(rs));
    Unmoved(next.0[i], Ticks(rs));
    Unmoved(next.0[j], Ticks(rs));
    ShownAt(ServeAll(next.0, next.1, rs).0, ServeAll(next.0, next.1, rs).1, p);
    ShownAt(ServeAll(next.0, next.1, rs).0, ServeAll(next.0, next.1, rs).1, q);
  }

  lemma SyncServed(list: seq<Blink>, v: Video, i: int, j: int)
    requires Good(list, v) && 0 <= i < |list| && 0 <= j < |list| && (list[i].location > 0 || list[j].location > 0)
    ensures var after := Serve(list, v, Request.Sync(list[i].location, list[j].location)).0;
      && |after| == |list| && after[i] == list[i] && after[j] == Synced(list[i], list[j])
  {
    var first, second := list[i].location, list[j].location;
    ValidAt(list, i);
    ValidAt(list, j);
    assert Listed(list, first) && Listed(list, second);
    assert Find(list, first) == i && Find(list, second) == j;
  }
}

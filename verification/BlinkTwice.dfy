// A location that is listed twice: for which characters list and screen agree over
// every run, and a run on which they disagree for all others.
module BlinkTwice {
  import opened Arith
  import opened BlinkSpec

  // The two elements always show one and the same character.
  predicate SameForEver(a: Blink, b: Blink) { a.onChar == a.offChar == b.onChar == b.offChar }

  lemma ServeValid(list: seq<Blink>, v: Video, r: Request)
    requires ValidList(list)
    ensures ValidList(Serve(list, v, r).0)
  {
    match r
    case Add(b) => if b.location < LOCATIONS { ValidCons(list, Started(b)); }
    case Remove(l) => if l < LOCATIONS && Listed(list, l) { ValidRemove(list, Find(list, l)); }
    case Sync(first, second) =>
      if CanSync(list, first, second) {
        var i, j := Find(list, first), Find(list, second);
        ValidAt(list, i);
        ValidAt(list, j);
        ValidUpdate(list, j, Synced(list[i], list[j]));
      }
    case Tick =>
      forall i | 0 <= i < |list| ensures ValidBlink(TickAll(list)[i]) { ValidAt(list, i); }
  }

  // A run that adds no other location twice.
  predicate Continues(list: seq<Blink>, v: Video, rs: seq<Request>)
    requires ValidList(list)
    decreases |rs|
  {
    rs != [] ==>
      && Unlisted(list, rs[0])
      && (ServeValid(list, v, rs[0]);
          var next := Serve(list, v, rs[0]);
          Continues(next.0, next.1, rs[1..]))
  }

  function After(list: seq<Blink>, v: Video, rs: seq<Request>): (r: (seq<Blink>, Video))
    requires ValidList(list)
    ensures ValidList(r.0)
    decreases |rs|
  {
    if rs == [] then (list, v)
    else
      ServeValid(list, v, rs[0]);
      var next := Serve(list, v, rs[0]);
      After(next.0, next.1, rs[1..])
  }

  lemma OneMore(list: seq<Blink>, v: Video, r: Request, rs: seq<Request>)
    requires ValidList(list) && ValidList(Serve(list, v, r).0)
    ensures var next := Serve(list, v, r);
      && Continues(list, v, [r] + rs) == (Unlisted(list, r) && Continues(next.0, next.1, rs))
      && After(list, v, [r] + rs) == After(next.0, next.1, rs)
  {
    assert ([r] + rs)[1..] == rs;
    hide Serve, ValidList;
  }

  // ----- harmless duplicates -----

  // List and screen agree, and elements at one location never show anything different.
  predicate Steady(list: seq<Blink>, v: Video) {
    && ValidList(list) && Shows(list, v)
    && forall i, j :: 0 <= i < j < |list| && list[i].location == list[j].location ==> SameForEver(list[i], list[j])
  }

  lemma {:induction false} SteadyTick(list: seq<Blink>, v: Video, n: int)
    requires Steady(list, v) && 0 <= n <= |list|
    ensures forall i :: 0 <= i < n ==> TickVideo(list, v, n)[2 * list[i].location] == Shown(TickOne(list[i]))
    ensures forall i :: n <= i < |list| ==> TickVideo(list, v, n)[2 * list[i].location] == Shown(list[i])
  {
    if n > 0 {
      SteadyTick(list, v, n - 1);
    }
  }

  lemma SteadyServe(list: seq<Blink>, v: Video, r: Request)
    requires Steady(list, v) && Unlisted(list, r)
    ensures Steady(Serve(list, v, r).0, Serve(list, v, r).1)
  {
    ServeValid(list, v, r);
    match r
    case Add(b) =>
      if b.location < LOCATIONS { SteadyAdd(list, v, b); }
    case Remove(l) =>
      if l < LOCATIONS && Listed(list, l) { SteadyRemove(list, v, Find(list, l)); }
    case Sync(first, second) =>
      if CanSync(list, first, second) { SteadySync(list, v, Find(list, first), Find(list, second)); }
    case Tick =>
      SteadyTick(list, v, |list|);
      forall i, j | 0 <= i < j < |list| && list[i].location == list[j].location
        ensures SameForEver(TickOne(list[i]), TickOne(list[j]))
      {}
  }

  lemma SteadyAdd(list: seq<Blink>, v: Video, b: Blink)
    requires Steady(list, v) && b.location < LOCATIONS && !Listed(list, b.location)
    ensures Steady([Started(b)] + list, Poke(v, b.location, b.onChar))
  {
    AddShowsIff(list, v, b);
    var after := [Started(b)] + list;
    forall i, j | 0 <= i < j < |after| && after[i].location == after[j].location
      ensures SameForEver(after[i], after[j])
    {
      assert after[j] == list[j - 1];
      assert i > 0;
      assert after[i] == list[i - 1];
    }
  }

  lemma SteadyRemove(list: seq<Blink>, v: Video, i: int)
    requires Steady(list, v) && 0 <= i < |list|
    ensures Steady(RemoveAt(list, i), v)
  {
    ValidRemove(list, i);
    var rest := RemoveAt(list, i);
    assert forall j :: 0 <= j < |rest| ==> rest[j] == list[if j < i then j else j + 1];
  }

  lemma SteadySync(list: seq<Blink>, v: Video, i: int, j: int)
    requires Steady(list, v) && 0 <= i < |list| && 0 <= j < |list|
    ensures var b := Synced(list[i], list[j]); ValidBlink(b) && Steady(list[j := b], Poke(v, b.location, Shown(b)))
  {
    ValidAt(list, i);
    ValidAt(list, j);
    var b := Synced(list[i], list[j]);
    var after := list[j := b];
    ValidUpdate(list, j, b);
    forall p | 0 <= p < |after|
      ensures Poke(v, b.location, Shown(b))[2 * after[p].location] == Shown(after[p])
    {
      if p != j && list[p].location == list[j].location {
        assert SameForEver(list[if p < j then p else j], list[if p < j then j else p]);
      }
    }
    forall p, q | 0 <= p < q < |after| && after[p].location == after[q].location
      ensures SameForEver(after[p], after[q])
    {
      assert SameForEver(list[p], list[q]);
    }
  }

  lemma {:induction false} SteadyRun(list: seq<Blink>, v: Video, rs: seq<Request>)
    requires Steady(list, v) && Continues(list, v, rs)
    ensures Steady(After(list, v, rs).0, After(list, v, rs).1)
    decreases |rs|
  {
    hide Shows, Serve, Unlisted;
    if rs != [] {
      ServeValid(list, v, rs[0]);
      SteadyServe(list, v, rs[0]);
      SteadyRun(Serve(list, v, rs[0]).0, Serve(list, v, rs[0]).1, rs[1..]);
    }
  }

  // ----- the others -----

  function TickN(b: Blink, n: nat): Blink
    decreases n
  {
    if n == 0 then b else TickN(TickOne(b), n - 1)
  }

  lemma {:induction false} TickNMore(b: Blink, n: nat, m: nat)
    ensures TickN(b, n + m) == TickN(TickN(b, n), m)
    decreases n
  {
    if n > 0 { TickNMore(TickOne(b), n - 1, m); }
  }

  // Sooner or later an element is switched over: a countdown of 0 wraps.
  lemma {:induction false} SwitchesOver(b: Blink) returns (n: nat)
    requires b.status <= 1
    ensures n >= 1 && TickN(b, n).status == 1 - b.status
    decreases if b.countdown == 0 then 65536 else b.countdown as int
  {
    if Decremented(b) == 0 {
      n := 1;
      assert TickN(b, 1) == TickN(TickOne(b), 0);
    } else {
      var m := SwitchesOver(TickOne(b));
      n := m + 1;
    }
  }

  // So it comes to either status, after one tick or more.
  lemma ComesTo(b: Blink, status: u16) returns (n: nat)
    requires b.status <= 1 && status <= 1
    ensures n >= 1 && TickN(b, n).status == status
  {
    n := SwitchesOver(b);
    if TickN(b, n).status != status {
      var m := SwitchesOver(TickN(b, n));
      TickNMore(b, n, m);
      n := n + m;
    }
  }

  // The character shown in a status.
  function CharIn(b: Blink, status: u16): byte { if status == 1 then b.onChar else b.offChar }

  // Two elements at one location that show different characters.
  lemma Disagree(list: seq<Blink>, v: Video, i: int, j: int)
    requires ValidList(list) && 0 <= i < |list| && 0 <= j < |list|
    requires list[i].location == list[j].location && Shown(list[i]) != Shown(list[j])
    ensures !Shows(list, v)
  {}

  // What is used to control the first element at a location.
  function Helper(y: u16): Blink { Blink(y, 0, 0, 1, 1, 0, 0) }

  // Add the helper and synchronize the first element with it: it is then on, and is
  // switched off by the next tick.
  lemma Controlled(list: seq<Blink>, v: Video, y: u16)
    requires ValidList(list) && list != [] && y < LOCATIONS && y != list[0].location && !Listed(list, y)
    ensures var one := Serve(list, v, Request.Add(Helper(y)));
      && ValidList(one.0)
      && var two := Serve(one.0, one.1, Request.Sync(y, list[0].location));
      && ValidList(two.0) && |two.0| == |list| + 1
      && two.0[1] == Synced(Started(Helper(y)), list[0]) && (forall q :: 0 < q < |list| ==> two.0[q + 1] == list[q])
  {
    var h := Started(Helper(y));
    var one := Serve(list, v, Request.Add(Helper(y)));
    ServeValid(list, v, Request.Add(Helper(y)));
    assert one.0 == [h] + list && one.0[0] == h && one.0[1] == list[0];
    ValidAt(list, 0);
    assert Listed(one.0, y) && Find(one.0, y) == 0;
    assert Listed(one.0, list[0].location);
    FoundSecond(one.0, list[0].location);
    ServeValid(one.0, one.1, Request.Sync(y, list[0].location));
  }

  lemma FoundSecond(list: seq<Blink>, location: u16)
    requires |list| >= 2 && list[0].location != location && list[1].location == location
    ensures Listed(list, location) && Find(list, location) == 1
  {
    assert list[1].location == location;
  }

  // When some character of the first element differs from some character of another
  // at its location, they come to show both at once.
  lemma {:induction false} BringApart(list: seq<Blink>, v: Video, q: int, first: u16, other: u16, n: nat, y: u16)
    returns (rs: seq<Request>)
    requires ValidList(list) && 0 < q < |list| && list[q].location == list[0].location
    requires first <= 1 && other <= 1 && CharIn(list[0], first) != CharIn(list[q], other)
    requires n >= 1 && TickN(list[q], n).status == other
    requires y < LOCATIONS && y != list[0].location && !Listed(list, y)
    ensures Continues(list, v, rs) && !Shows(After(list, v, rs).0, After(list, v, rs).1)
    decreases n
  {
    ServeValid(list, v, Request.Tick);
    var ticked := Serve(list, v, Request.Tick);
    TickLocations(list, y);
    if n > 1 {
      var later := BringApart(ticked.0, ticked.1, q, first, other, n - 1, y);
      rs := [Request.Tick] + later;
      OneMore(list, v, Request.Tick, later);
    } else if first == 1 {
      rs := SyncNow(ticked.0, ticked.1, q, y);
      OneMore(list, v, Request.Tick, rs);
      rs := [Request.Tick] + rs;
    } else {
      rs := SyncAndTick(list, v, q, y);
    }
  }

  lemma TickLocations(list: seq<Blink>, y: u16)
    ensures |TickAll(list)| == |list| && (Listed(TickAll(list), y) <==> Listed(list, y))
    ensures forall i :: 0 <= i < |list| ==> TickAll(list)[i] == TickOne(list[i])
  {
    if Listed(list, y) {
      var i :| 0 <= i < |list| && list[i].location == y;
      assert TickAll(list)[i].location == y;
    }
  }

  // The first element is switched on now.
  lemma SyncNow(list: seq<Blink>, v: Video, q: int, y: u16) returns (rs: seq<Request>)
    requires ValidList(list) && 0 < q < |list| && list[q].location == list[0].location
    requires list[0].onChar != Shown(list[q])
    requires y < LOCATIONS && y != list[0].location && !Listed(list, y)
    ensures Continues(list, v, rs) && !Shows(After(list, v, rs).0, After(list, v, rs).1)
  {
    var add, sync := Request.Add(Helper(y)), Request.Sync(y, list[0].location);
    Controlled(list, v, y);
    var one := Serve(list, v, add);
    var two := Serve(one.0, one.1, sync);
    Disagree(two.0, two.1, 1, q + 1);
    OneMore(one.0, one.1, sync, []);
    OneMore(list, v, add, [sync] + []);
    rs := [add] + ([sync] + []);
  }

  // The first element is switched off by the next tick.
  lemma SyncAndTick(list: seq<Blink>, v: Video, q: int, y: u16) returns (rs: seq<Request>)
    requires ValidList(list) && 0 < q < |list| && list[q].location == list[0].location
    requires list[0].offChar != Shown(TickOne(list[q]))
    requires y < LOCATIONS && y != list[0].location && !Listed(list, y)
    ensures Continues(list, v, rs) && !Shows(After(list, v, rs).0, After(list, v, rs).1)
  {
    var add, sync, tick := Request.Add(Helper(y)), Request.Sync(y, list[0].location), Request.Tick;
    Controlled(list, v, y);
    var one := Serve(list, v, add);
    var two := Serve(one.0, one.1, sync);
    ServeValid(two.0, two.1, tick);
    var three := Serve(two.0, two.1, tick);
    assert three.0[1] == TickOne(two.0[1]) && three.0[q + 1] == TickOne(list[q]);
    Disagree(three.0, three.1, 1, q + 1);
    OneMore(two.0, two.1, tick, []);
    OneMore(one.0, one.1, sync, [tick] + []);
    OneMore(list, v, add, [sync] + ([tick] + []));
    rs := [add] + ([sync] + ([tick] + []));
  }

  // Before that, a location other than theirs is made free if need be.
  lemma MakeRoom(list: seq<Blink>, v: Video, b: Blink, i: int) returns (rs: seq<Request>)
    requires Good(list, v) && 0 <= i < |list| && list[i].location == b.location < LOCATIONS && !SameForEver(list[i], b)
    ensures ValidList([Started(b)] + list)
    ensures var both, w := [Started(b)] + list, Poke(v, b.location, b.onChar);
      Continues(both, w, rs) && !Shows(After(both, w, rs).0, After(both, w, rs).1)
  {
    var both, w := [Started(b)] + list, Poke(v, b.location, b.onChar);
    ValidAt(list, i);
    ValidCons(list, Started(b));
    assert both[0] == Started(b) && both[i + 1] == list[i];
    var y: u16 := if b.location == 0 then 1 else 0;
    if Listed(both, y) {
      var f := Find(both, y);
      ServeValid(both, w, Request.Remove(y));
      var fewer := RemoveAt(both, f);
      assert both[f] == list[f - 1];
      RemovedOnly(both, list, f, y);
      var q := if i + 1 < f then i + 1 else i;
      assert fewer[0] == both[0] && fewer[q] == list[i];
      var later := Conflicting(fewer, w, q, y);
      OneMore(both, w, Request.Remove(y), later);
      rs := [Request.Remove(y)] + later;
    } else {
      rs := Conflicting(both, w, i + 1, y);
    }
  }

  lemma RemovedOnly(both: seq<Blink>, list: seq<Blink>, f: int, y: u16)
    requires Distinct(list) && both != [] && both[1..] == list && both[0].location != y
    requires 0 < f < |both| && both[f].location == y
    ensures !Listed(RemoveAt(both, f), y)
  {
    var fewer := RemoveAt(both, f);
    forall j | 0 <= j < |fewer| ensures fewer[j].location != y {
      var k := if j < f then j else j + 1;
      assert fewer[j] == both[k];
      if k > 0 {
        assert both[k] == list[k - 1] && both[f] == list[f - 1];
      }
    }
  }

  lemma Conflicting(list: seq<Blink>, v: Video, q: int, y: u16) returns (rs: seq<Request>)
    requires ValidList(list) && 0 < q < |list| && list[q].location == list[0].location
    requires !SameForEver(list[q], list[0]) && y < LOCATIONS && y != list[0].location && !Listed(list, y)
    ensures Continues(list, v, rs) && !Shows(After(list, v, rs).0, After(list, v, rs).1)
  {
    ValidAt(list, q);
    var first: u16 := if list[0].onChar != list[q].onChar || list[0].onChar != list[q].offChar then 1 else 0;
    var other: u16 := if CharIn(list[0], first) != list[q].onChar then 1 else 0;
    var n := ComesTo(list[q], other);
    rs := BringApart(list, v, q, first, other, n, y);
  }

  // When a listed location is added again, list and screen agree over every run that
  // follows exactly when the two elements can only ever show one character.
  lemma DuplicateSafeIff(list: seq<Blink>, v: Video, b: Blink, i: int)
    requires Good(list, v) && 0 <= i < |list| && list[i].location == b.location < LOCATIONS
    ensures ValidList([Started(b)] + list)
    ensures var both, w := [Started(b)] + list, Poke(v, b.location, b.onChar);
      (forall rs :: Continues(both, w, rs) ==> Shows(After(both, w, rs).0, After(both, w, rs).1))
      <==> SameForEver(list[i], b)
  {
    var both, w := [Started(b)] + list, Poke(v, b.location, b.onChar);
    AddShowsIff(list, v, b);
    if SameForEver(list[i], b) {
      DuplicateSteady(list, v, b, i);
      forall rs | Continues(both, w, rs) ensures Shows(After(both, w, rs).0, After(both, w, rs).1) {
        SteadyRun(both, w, rs);
      }
    } else {
      var rs := MakeRoom(list, v, b, i);
    }
  }

  lemma DuplicateSteady(list: seq<Blink>, v: Video, b: Blink, i: int)
    requires Good(list, v) && 0 <= i < |list| && list[i].location == b.location < LOCATIONS && SameForEver(list[i], b)
    ensures Steady([Started(b)] + list, Poke(v, b.location, b.onChar))
  {
    AddShowsIff(list, v, b);
    var both := [Started(b)] + list;
    assert forall p :: 0 < p < |both| ==> both[p] == list[p - 1];
    forall p, q | 0 <= p < q < |both| && both[p].location == both[q].location
      ensures SameForEver(both[p], both[q])
    {
      assert both[q] == list[q - 1];
    }
  }
}

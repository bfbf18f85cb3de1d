// The blinking characters of mp1.S as values: what each request does to the list
// and to the text screen, and why the two agree.
module BlinkSpec {
  import opened Arith

  type u16 = n: int | 0 <= n < 65536

  const LOCATIONS := 2000

  // struct mp1_blink_struct, without its next pointer.
  datatype Blink = Blink(location: u16, onChar: byte, offChar: byte, onLength: u16, offLength: u16, countdown: u16,
    status: u16)

  // Text-mode video memory: a character and an attribute for every location.
  type Video = v: seq<byte> | |v| == 2 * LOCATIONS witness seq(4000, _ => 0)

  predicate ValidBlink(b: Blink) { b.location < LOCATIONS && (b.status == 0 || b.status == 1) }

  predicate ValidList(list: seq<Blink>) { forall i :: 0 <= i < |list| ==> ValidBlink(list[i]) }

  // mp1_poke, called with twice the location.
  function Poke(v: Video, location: int, c: byte): Video
    requires 0 <= location < LOCATIONS
  {
    v[2 * location := c]
  }

  // The character a listed location has to show.
  function Shown(b: Blink): byte { if b.status == 1 then b.onChar else b.offChar }

  predicate Shows(list: seq<Blink>, v: Video)
    requires ValidList(list)
  {
    forall i :: 0 <= i < |list| ==> v[2 * list[i].location] == Shown(list[i])
  }

  predicate Distinct(list: seq<Blink>) {
    forall i, j :: 0 <= i < j < |list| ==> list[i].location != list[j].location
  }

  predicate Listed(list: seq<Blink>, location: int) {
    exists i :: 0 <= i < |list| && list[i].location == location
  }

  predicate Good(list: seq<Blink>, v: Video) { ValidList(list) && Distinct(list) && Shows(list, v) }

  // ----- the requests -----

  // The first element with the location, or -1.
  function Find(list: seq<Blink>, location: int): (r: int)
    ensures if Listed(list, location)
      then 0 <= r < |list| && list[r].location == location && forall j :: 0 <= j < r ==> list[j].location != location
      else r == -1
  {
    if list == [] then -1
    else if list[0].location == location then 0
    else
      var r := Find(list[1..], location);
      assert r >= 0 ==> list[r + 1] == list[1..][r];
      assert Listed(list, location) ==> Listed(list[1..], location) by {
        if Listed(list, location) {
          var i :| 0 <= i < |list| && list[i].location == location;
          assert list[1..][i - 1] == list[i];
        }
      }
      assert forall j :: 0 < j < |list| ==> list[j] == list[1..][j - 1];
      if r == -1 then -1 else r + 1
  }

  // A new element starts out on.
  function Started(b: Blink): Blink { b.(countdown := b.onLength, status := 1) }

  function RemoveAt(list: seq<Blink>, i: int): seq<Blink>
    requires 0 <= i < |list|
  {
    list[..i] + list[i + 1..]
  }

  // Synchronizing copies the timing and the status.
  function Synced(from: Blink, to: Blink): Blink {
    to.(onLength := from.onLength, offLength := from.offLength, countdown := from.countdown, status := from.status)
  }

  // One timer tick of one element: the countdown is a 16-bit word.
  function Decremented(b: Blink): u16 { (b.countdown + 65535) % 65536 }

  function TickOne(b: Blink): Blink {
    if Decremented(b) != 0 then b.(countdown := Decremented(b))
    else if b.status == 0 then b.(status := 1, countdown := b.onLength)
    else b.(status := 0, countdown := b.offLength)
  }

  function TickAll(list: seq<Blink>): seq<Blink> { seq(|list|, i requires 0 <= i < |list| => TickOne(list[i])) }

  // The screen after the first n elements have been ticked.
  function TickVideo(list: seq<Blink>, v: Video, n: int): Video
    requires ValidList(list) && 0 <= n <= |list|
  {
    if n == 0 then v
    else
      var w := TickVideo(list, v, n - 1);
      var b := list[n - 1];
      if Decremented(b) != 0 then w else Poke(w, b.location, Shown(TickOne(b)))
  }

  lemma ValidAt(list: seq<Blink>, i: int)
    requires ValidList(list) && 0 <= i < |list|
    ensures ValidBlink(list[i])
  {}

  lemma ValidUpdate(list: seq<Blink>, i: int, b: Blink)
    requires ValidList(list) && ValidBlink(b) && 0 <= i < |list|
    ensures ValidList(list[i := b])
  {}

  lemma ValidCons(list: seq<Blink>, b: Blink)
    requires ValidList(list) && ValidBlink(b)
    ensures ValidList([b] + list)
  {}

  lemma ValidRemove(list: seq<Blink>, i: int)
    requires ValidList(list) && 0 <= i < |list|
    ensures ValidList(RemoveAt(list, i))
  {}

  lemma TickValid(b: Blink)
    requires ValidBlink(b)
    ensures ValidBlink(TickOne(b))
  {}

  // ----- agreement -----

  // The locations of the list do not change, so a poke for one element is seen by
  // no other.
  lemma {:induction false} TickVideoAt(list: seq<Blink>, v: Video, n: int)
    requires Good(list, v) && 0 <= n <= |list|
    ensures forall i :: 0 <= i < n ==> TickVideo(list, v, n)[2 * list[i].location] == Shown(TickOne(list[i]))
    ensures forall i :: n <= i < |list| ==> TickVideo(list, v, n)[2 * list[i].location] == Shown(list[i])
  {
    if n > 0 {
      TickVideoAt(list, v, n - 1);
    }
  }

  lemma TickKeeps(list: seq<Blink>, v: Video)
    requires Good(list, v)
    ensures Good(TickAll(list), TickVideo(list, v, |list|))
  {
    TickVideoAt(list, v, |list|);
    forall i | 0 <= i < |list|
      ensures ValidBlink(TickAll(list)[i]) && TickAll(list)[i].location == list[i].location
    {
      assert ValidBlink(list[i]);
    }
  }

  // Right after an add list and screen agree exactly when the elements already
  // listed at that location, if any, show the same character at the moment.
  lemma AddShowsIff(list: seq<Blink>, v: Video, b: Blink)
    requires ValidList(list) && Shows(list, v) && b.location < LOCATIONS
    ensures ValidList([Started(b)] + list)
    ensures Shows([Started(b)] + list, Poke(v, b.location, b.onChar))
      <==> forall i :: 0 <= i < |list| && list[i].location == b.location ==> Shown(list[i]) == b.onChar
  {
    var list', v' := [Started(b)] + list, Poke(v, b.location, b.onChar);
    assert forall i :: 0 <= i < |list| ==> list'[i + 1] == list[i];
    if Shows(list', v') {
      forall i | 0 <= i < |list| && list[i].location == b.location
        ensures Shown(list[i]) == b.onChar
      {
        assert list'[i + 1] == list[i];
      }
    }
  }

  // With an unlisted location all is kept.
  lemma AddKeeps(list: seq<Blink>, v: Video, b: Blink)
    requires Good(list, v) && b.location < LOCATIONS && !Listed(list, b.location)
    ensures Good([Started(b)] + list, Poke(v, b.location, b.onChar))
  {
    AddShowsIff(list, v, b);
  }

  // Adding a location twice: the two elements disagree about it, although both
  // requests succeed.
  lemma AddTwice(v: Video)
    ensures var a, b := Blink(0, 65, 66, 5, 5, 0, 0), Blink(0, 67, 68, 5, 5, 0, 0);
      Good([Started(a)], Poke(v, 0, 65)) && !Shows([Started(b), Started(a)], Poke(Poke(v, 0, 65), 0, 67))
  {
    var a, b := Blink(0, 65, 66, 5, 5, 0, 0), Blink(0, 67, 68, 5, 5, 0, 0);
    assert [Started(b), Started(a)][1] == Started(a);
  }

  // A listed location may be added with the character that it shows at the moment,
  // and all is well until a tick: then the two elements disagree about it.
  lemma AddThenTick(v: Video)
    ensures var a, b := Blink(0, 65, 66, 5, 5, 0, 0), Blink(0, 65, 67, 1, 5, 0, 0);
      var list, w := [Started(b), Started(a)], Poke(Poke(v, 0, 65), 0, 65);
      && Good([Started(a)], Poke(v, 0, 65)) && ValidList(list) && Shows(list, w)
      && ValidList(TickAll(list)) && !Shows(TickAll(list), TickVideo(list, w, |list|))
  {
    var a, b := Blink(0, 65, 66, 5, 5, 0, 0), Blink(0, 65, 67, 1, 5, 0, 0);
    var list, w := [Started(b), Started(a)], Poke(Poke(v, 0, 65), 0, 65);
    assert TickAll(list) == [TickOne(Started(b)), TickOne(Started(a))];
    assert TickVideo(list, w, 1) == Poke(w, 0, 67);
    assert TickVideo(list, w, 2) == TickVideo(list, w, 1);
    assert TickAll(list)[1].location == 0 && Shown(TickAll(list)[1]) == 65;
  }

  lemma RemoveKeeps(list: seq<Blink>, v: Video, i: int)
    requires Good(list, v) && 0 <= i < |list|
    ensures Good(RemoveAt(list, i), v) && !Listed(RemoveAt(list, i), list[i].location)
    ensures var rest := RemoveAt(list, i);
      |rest| == |list| - 1 && forall j :: 0 <= j < |rest| ==> rest[j] == if j < i then list[j] else list[j + 1]
  {
    var rest := RemoveAt(list, i);
    forall j | 0 <= j < |rest|
      ensures rest[j] == if j < i then list[j] else list[j + 1]
    {}
  }

  lemma SyncKeeps(list: seq<Blink>, v: Video, i: int, j: int)
    requires Good(list, v) && 0 <= i < |list| && 0 <= j < |list|
    ensures var b := Synced(list[i], list[j]);
      ValidBlink(b) && Good(list[j := b], Poke(v, b.location, Shown(b)))
  {
    assert ValidBlink(list[i]) && ValidBlink(list[j]);
  }

  // ----- runs -----

  datatype Request = Add(b: Blink) | Remove(location: u16) | Sync(first: u16, second: u16) | Tick

  predicate CanSync(list: seq<Blink>, first: u16, second: u16) {
    first < LOCATIONS && second < LOCATIONS && (first != 0 || second != 0) && Listed(list, first)
      && Listed(list, second)
  }

  // The list and the screen after a request; a request that fails changes nothing.
  function Serve(list: seq<Blink>, v: Video, r: Request): (seq<Blink>, Video)
    requires ValidList(list)
  {
    match r
    case Add(b) => if b.location < LOCATIONS then ([Started(b)] + list, Poke(v, b.location, b.onChar)) else (list, v)
    case Remove(l) => if l < LOCATIONS && Listed(list, l) then (RemoveAt(list, Find(list, l)), v) else (list, v)
    case Sync(first, second) =>
      if CanSync(list, first, second) then
        var b := Synced(list[Find(list, first)], list[Find(list, second)]);
        (list[Find(list, second) := b], Poke(v, second, Shown(b)))
      else (list, v)
    case Tick => (TickAll(list), TickVideo(list, v, |list|))
  }

  predicate Unlisted(list: seq<Blink>, r: Request) { r.Add? ==> !Listed(list, r.b.location) }

  lemma ServeKeeps(list: seq<Blink>, v: Video, r: Request)
    requires Good(list, v) && Unlisted(list, r)
    ensures Good(Serve(list, v, r).0, Serve(list, v, r).1)
  {
    match r
    case Add(b) => if b.location < LOCATIONS { AddKeeps(list, v, b); }
    case Remove(l) => if l < LOCATIONS && Listed(list, l) { RemoveKeeps(list, v, Find(list, l)); }
    case Sync(first, second) =>
      if first < LOCATIONS && second < LOCATIONS && Listed(list, first) && Listed(list, second) {
        SyncKeeps(list, v, Find(list, first), Find(list, second));
      }
    case Tick => TickKeeps(list, v);
  }

  // Every location added is unlisted at the time.
  predicate AddsUnlisted(list: seq<Blink>, v: Video, rs: seq<Request>)
    requires Good(list, v)
    decreases |rs|
  {
    rs != [] ==>
      && Unlisted(list, rs[0])
      && (ServeKeeps(list, v, rs[0]);
          var next := Serve(list, v, rs[0]);
          AddsUnlisted(next.0, next.1, rs[1..]))
  }

  function ServeAll(list: seq<Blink>, v: Video, rs: seq<Request>): (seq<Blink>, Video)
    requires Good(list, v) && AddsUnlisted(list, v, rs)
    decreases |rs|
  {
    if rs == [] then (list, v)
    else
      ServeKeeps(list, v, rs[0]);
      ServeAll(Serve(list, v, rs[0]).0, Serve(list, v, rs[0]).1, rs[1..])
  }

  // Over every such run the screen agrees with the list.
  lemma {:induction false} RunAgrees(list: seq<Blink>, v: Video, rs: seq<Request>)
    requires Good(list, v) && AddsUnlisted(list, v, rs)
    ensures Good(ServeAll(list, v, rs).0, ServeAll(list, v, rs).1)
    decreases |rs|
  {
    if rs != [] {
      ServeKeeps(list, v, rs[0]);
      RunAgrees(Serve(list, v, rs[0]).0, Serve(list, v, rs[0]).1, rs[1..]);
    }
  }
}

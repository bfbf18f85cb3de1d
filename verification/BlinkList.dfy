// The linked list of mp1.S and the requests on it, in place.
module BlinkListModule {
  import opened Arith
  import opened BlinkSpec

  class Node {
    var location: u16
    var onChar: byte
    var offChar: byte
    var onLength: u16
    var offLength: u16
    var countdown: u16
    var status: u16
    var next: Node?

    constructor (b: Blink)
      ensures Value() == b && next == null
    {
      location, onChar, offChar, onLength := b.location, b.onChar, b.offChar, b.onLength;
      offLength, countdown, status, next := b.offLength, b.countdown, b.status, null;
    }

    function Value(): Blink
      reads this
    {
      Blink(location, onChar, offChar, onLength, offLength, countdown, status)
    }
  }

  // The element after position i.
  function After(nodes: seq<Node>, i: int): Node?
    requires 0 <= i < |nodes|
  {
    if i + 1 < |nodes| then nodes[i + 1] else null
  }

  lemma AfterAt(nodes: seq<Node>, i: int)
    requires 0 <= i < |nodes|
    ensures After(nodes, i) == if i + 1 < |nodes| then nodes[i + 1] else null
  {}

  lemma FirstAfter(nodes: seq<Node>)
    ensures |nodes| > 0 ==> After(nodes, 0) == if |nodes| > 1 then nodes[1] else null
  {}

  // Which element follows once element i has been taken out.
  lemma AfterRemoved(nodes: seq<Node>, i: int, j: int)
    requires 0 <= i < |nodes| && 0 <= j < |nodes| - 1
    ensures After(nodes[..i] + nodes[i + 1..], j) ==
      if j == i - 1 then After(nodes, i) else if j < i then After(nodes, j) else After(nodes, j + 1)
  {}

  lemma AfterPushed(nodes: seq<Node>, n: Node, j: int)
    requires 0 <= j <= |nodes|
    ensures After([n] + nodes, j) == if j == 0 then (if nodes == [] then null else nodes[0]) else After(nodes, j - 1)
  {}

  class BlinkList {
    var head: Node?              // mp1_list_head
    const video: array<byte>     // text-mode video memory
    ghost var nodes: seq<Node>   // the list, from the head

    // The pointers run through the nodes, each once, and end in null.
    ghost predicate Linked()
      reads this, nodes
    {
      && head == (if nodes == [] then null else nodes[0])
      && (forall i :: 0 <= i < |nodes| ==> nodes[i].next == After(nodes, i))
      && (forall i, j :: 0 <= i < j < |nodes| ==> nodes[i] != nodes[j])
    }

    ghost function List(): (s: seq<Blink>)
      reads this, nodes
      ensures |s| == |nodes| && forall i :: 0 <= i < |s| ==> s[i] == nodes[i].Value()
    {
      seq(|nodes|, i requires 0 <= i < |nodes| reads this, nodes => nodes[i].Value())
    }

    ghost predicate Valid()
      reads this, nodes
    {
      video.Length == 2 * LOCATIONS && Linked() && ValidList(List())
    }

    ghost function Screen(): Video
      requires Valid()
      reads this, nodes, video
    {
      video[..]
    }

    constructor ()
      ensures Valid() && List() == [] && fresh(video)
    {
      head := null;
      video := new byte[2 * LOCATIONS](_ => 0);
      nodes := [];
    }

    // One element has a new value, and the others the old one.
    lemma ValueChanged(list: seq<Blink>, i: int, b: Blink)
      requires 0 <= i < |nodes| == |list| && nodes[i].Value() == b
      requires forall k :: 0 <= k < |nodes| && k != i ==> nodes[k].Value() == list[k]
      ensures List() == list[i := b]
    {
      hide List;
    }

    // mp1_poke
    method PokeScreen(offset: int, c: byte)
      requires 0 <= offset < video.Length
      modifies video
      ensures video[..] == old(video[..])[offset := c]
    {
      video[offset] := c;
    }

    // mp1_traversal_init: the first element with the location; when it is to be
    // removed it is unlinked, and the rest keeps its order.
    method Traverse(location: u16, remove: bool) returns (found: Node?)
      requires Valid()
      modifies this, nodes
      ensures Valid() && (found == null <==> !Listed(old(List()), location))
      ensures found != null ==> found == old(nodes)[Find(old(List()), location)]
      ensures !remove || found == null ==> nodes == old(nodes) && List() == old(List())
      ensures remove && found != null ==> List() == RemoveAt(old(List()), Find(old(List()), location))
      ensures remove && found != null ==> forall n :: n in nodes ==> n in old(nodes)
    {
      var prev: Node?, cur := null, head;
      ghost var i := 0;
      ghost var list := List();
      while cur != null
        invariant Valid() && nodes == old(nodes) && List() == list && head == old(head)
        invariant 0 <= i <= |nodes| && cur == (if i < |nodes| then nodes[i] else null)
        invariant prev == if i == 0 then null else nodes[i - 1]
        invariant forall j :: 0 <= j < i ==> list[j].location != location
        decreases |nodes| - i
      {
        if cur.location == location {
          assert list[i].location == location;
          assert Find(list, location) == i;
          if remove {
            Unlink(prev, cur, i);
          }
          return cur;
        }
        prev := cur;
        cur := cur.next;
        i := i + 1;
      }
      return null;
    }

    // traversal_remove, with or without a previous element.
    method Unlink(prev: Node?, cur: Node, ghost i: int)
      requires Valid() && 0 <= i < |nodes| && cur == nodes[i] && prev == if i == 0 then null else nodes[i - 1]
      modifies this, nodes
      ensures Valid() && List() == RemoveAt(old(List()), i)
      ensures forall n :: n in nodes ==> n in old(nodes)
    {
      hide List, ValidList, After;
      ghost var list, was := List(), nodes;
      FirstAfter(was);
      if prev == null {
        head := cur.next;
      } else {
        prev.next := cur.next;
      }
      nodes := was[..i] + was[i + 1..];
      FirstAfter(nodes);
      forall j | 0 <= j < |nodes|
        ensures nodes[j].next == After(nodes, j) && nodes[j].Value() == RemoveAt(list, i)[j]
      {
        var k := if j < i then j else j + 1;
        assert nodes[j] == was[k] && old(was[k].next) == After(was, k) && old(was[i].next) == After(was, i);
        AfterRemoved(was, i, j);
      }
      assert List() == RemoveAt(list, i);
      ValidRemove(list, i);
    }

    // mp1_ioctl_add.  The three flags tell whether there is memory, whether the
    // argument points anywhere, and whether it could be copied.
    method Add(hasMemory: bool, hasArg: bool, copied: bool, b: Blink) returns (r: int)
      requires Valid()
      modifies this, video
      ensures Valid()
      ensures r == if hasMemory && hasArg && copied && b.location < LOCATIONS then 0 else -1
      ensures (List(), Screen()) ==
        if r == 0 then Serve(old(List()), old(Screen()), Request.Add(b)) else (old(List()), old(Screen()))
    {
      hide List, ValidList, After;
      if !hasMemory || !hasArg || !copied {
        return -1;
      }
      var n := new Node(b);
      if n.location >= LOCATIONS {
        return -1;
      }
      LinkInFront(n, b);
      PokeScreen(2 * n.location, n.onChar);
      return 0;
    }

    // Sets countdown and status and puts the element at the head of the list.
    method LinkInFront(n: Node, ghost b: Blink)
      requires Valid() && n !in nodes && n.Value() == b && b.location < LOCATIONS
      modifies this, n
      ensures Valid() && List() == [Started(b)] + old(List()) && n.Value() == Started(b)
    {
      hide List, ValidList, After;
      ghost var list, was := List(), nodes;
      n.countdown := n.onLength;
      n.status := 1;
      n.next := head;
      head := n;
      nodes := [n] + was;
      forall j | 0 <= j < |nodes|
        ensures nodes[j].next == After(nodes, j) && nodes[j].Value() == ([Started(b)] + list)[j]
      {
        AfterPushed(was, n, j);
        assert j > 0 ==> nodes[j] == was[j - 1] && was[j - 1].next == After(was, j - 1);
      }
      assert List() == [Started(b)] + list;
      ValidCons(list, Started(b));
    }

    // mp1_ioctl_remove
    method Remove(location: u16) returns (r: int)
      requires Valid()
      modifies this, nodes
      ensures Valid()
      ensures r == if location < LOCATIONS && Listed(old(List()), location) then 0 else -1
      ensures List() == Serve(old(List()), old(Screen()), Request.Remove(location)).0 && Screen() == old(Screen())
    {
      if location >= LOCATIONS {
        return -1;
      }
      ghost var screen := Screen();
      var found := Traverse(location, true);
      assert Screen() == screen;
      return if found != null then 0 else -1;
    }

    // The timing information of one element for another.
    method CopyTiming(from: Node, to: Node, ghost i: int, ghost j: int)
      requires Valid() && 0 <= i < |nodes| && from == nodes[i] && 0 <= j < |nodes| && to == nodes[j]
      modifies to
      ensures Valid() && List() == old(List())[j := Synced(old(List())[i], old(List())[j])]
    {
      hide List, ValidList, After;
      ghost var list := List();
      ValidAt(list, i);
      ValidAt(list, j);
      assert list[i] == from.Value() && list[j] == to.Value();
      to.onLength := from.onLength;
      to.offLength := from.offLength;
      to.countdown := from.countdown;
      to.status := from.status;
      ValueChanged(list, j, Synced(list[i], list[j]));
      ValidUpdate(list, j, Synced(list[i], list[j]));
    }

    // mp1_ioctl_sync
    method Sync(first: u16, second: u16) returns (r: int)
      requires Valid()
      modifies this, nodes, video
      ensures Valid()
      ensures r == -1 ==> List() == old(List()) && Screen() == old(Screen())
      ensures r == if CanSync(old(List()), first, second) then 0 else -1
      ensures (List(), Screen()) == Serve(old(List()), old(Screen()), Request.Sync(first, second))
    {
      hide List, ValidList, After, Find, Listed;
      if first == 0 && second == 0 {
        return -1;
      }
      if second >= LOCATIONS || first >= LOCATIONS {
        return -1;
      }
      ghost var list, screen := List(), Screen();
      var from := Traverse(first, false);
      if from == null {
        return -1;
      }
      var to := Traverse(second, false);
      if to == null {
        return -1;
      }
      ghost var i, j := Find(list, first), Find(list, second);
      ValidAt(list, i);
      CopyTiming(from, to, i, j);
      var c: byte;
      if to.status == 0 {
        c := to.offChar;
      } else if to.status == 1 {
        c := to.onChar;
      } else {
        assert false;
        return -1;
      }
      PokeScreen(2 * to.location, c);
      return 0;
    }

    // mp1_rtc_tasklet
    method Tasklet()
      requires Valid()
      modifies nodes, video
      ensures Valid() && nodes == old(nodes)
      ensures (List(), Screen()) == Serve(old(List()), old(Screen()), Request.Tick)
    {
      hide List, ValidList, After, Decremented, TickOne;
      var cur := head;
      ghost var i := 0;
      ghost var list, screen := List(), Screen();
      while cur != null
        invariant Valid()
        invariant 0 <= i <= |nodes| && cur == (if i < |nodes| then nodes[i] else null)
        invariant forall j :: 0 <= j < i ==> nodes[j].Value() == TickOne(list[j])
        invariant forall j :: i <= j < |nodes| ==> nodes[j].Value() == list[j]
        invariant video[..] == TickVideo(list, screen, i)
        decreases |nodes| - i
      {
        ValidAt(list, i);
        AfterAt(nodes, i);
        TickCurrent(cur, i, list[i]);
        cur := cur.next;
        i := i + 1;
      }
      assert List() == TickAll(list);
    }

    // One element of the traversal.  The exit for a status that is neither 0 nor 1
    // is never taken.
    method TickCurrent(cur: Node, ghost i: int, ghost b: Blink)
      requires Valid() && 0 <= i < |nodes| && cur == nodes[i] && cur.Value() == b && ValidBlink(b)
      modifies cur, video
      ensures Valid() && cur.Value() == TickOne(b) && cur.next == old(cur.next)
      ensures video[..] ==
        if Decremented(b) != 0 then old(video[..]) else old(video[..])[2 * b.location := Shown(TickOne(b))]
    {
      hide List, ValidList, After;
      ghost var list := List();
      cur.countdown := (cur.countdown + 65535) % 65536;
      if cur.countdown == 0 {
        var c: byte;
        if cur.status == 0 {
          c := cur.onChar;
          cur.status := 1;
          cur.countdown := cur.onLength;
        } else if cur.status == 1 {
          c := cur.offChar;
          cur.status := 0;
          cur.countdown := cur.offLength;
        } else {
          assert false;
          return;
        }
        PokeScreen(2 * cur.location, c);
      }
      ValueChanged(list, i, TickOne(b));
      TickValid(b);
      ValidUpdate(list, i, TickOne(b));
    }
  }
}

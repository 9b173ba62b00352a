// array_t: an array whose items know their own index.
module PipeArray {
  // A part of a message as it travels through a pipe.
  datatype Part = Part(message: nat, index: nat, more: bool)

  // What a pipe has of messages going out.
  datatype Outbound = Outbound(parts: seq<Part>, tries: nat, active: bool, hwm: nat, unread: nat)

  predicate Takes(o: Outbound)
  {
    o.active && !(o.hwm > 0 && o.unread == o.hwm)
  }

  // A pipe that was offered a part: it has the part if it takes any, and is not active any more if not.
  function AfterOffer(o: Outbound, part: Part): Outbound
  {
    if Takes(o) then
      o.(parts := o.parts + [part], tries := o.tries + 1, unread := if part.more then o.unread else o.unread + 1)
    else o.(tries := o.tries + 1, active := false)
  }

  // A pipe that was offered one part after the other.
  function AfterOffers(o: Outbound, parts: seq<Part>): (r: Outbound)
    ensures r.hwm == o.hwm && r.tries == o.tries + |parts|
    decreases |parts|
  {
    if parts == [] then o else AfterOffer(AfterOffers(o, parts[..|parts| - 1]), parts[|parts| - 1])
  }

  // How many messages end among the parts.
  function Completed(parts: seq<Part>): nat
  {
    if parts == [] then 0 else Completed(parts[..|parts| - 1]) + if parts[|parts| - 1].more then 0 else 1
  }

  lemma CompletedNext(parts: seq<Part>, part: Part)
    ensures Completed(parts + [part]) == Completed(parts) + if part.more then 0 else 1
  {
    assert (parts + [part])[..|parts|] == parts;
  }

  // While nothing is read, a new pipe takes everything until as many messages have ended as its limit allows,
  // and nothing after that.
  lemma {:induction false} LimitKept(hwm: nat, parts: seq<Part>)
    ensures var r := AfterOffers(Outbound([], 0, true, hwm, 0), parts);
            && r.unread == Completed(r.parts) && r.parts <= parts && (hwm > 0 ==> r.unread <= hwm)
            && (r.parts == parts <==> r.active) && (|r.parts| < |parts| ==> hwm > 0 && r.unread == hwm)
            && (hwm == 0 ==> r.active)
    decreases |parts|
  {
    if parts != [] {
      LimitKept(hwm, parts[..|parts| - 1]);
      var before := AfterOffers(Outbound([], 0, true, hwm, 0), parts[..|parts| - 1]);
      CompletedNext(before.parts, parts[|parts| - 1]);
      assert parts == parts[..|parts| - 1] + [parts[|parts| - 1]];
    }
  }

  class Pipe {
    var arrayIndex: int
    ghost var parts: seq<Part> // outbound: every part written so far
    ghost var tries: nat // how often a write was attempted
    var outActive: bool // out_active, in the state active
    var hwm: nat // how many unread messages are allowed, 0 for any number
    var unread: nat // msgs_written - peers_msgs_read
    var waiting: seq<Part> // inbound: the parts to be read

    constructor (hwm: nat)
      ensures arrayIndex == -1 && parts == [] && tries == 0 && waiting == []
      ensures outActive && this.hwm == hwm && unread == 0
    {
      arrayIndex, parts, tries, waiting := -1, [], 0, [];
      outActive, this.hwm, unread := true, hwm, 0;
    }

    // pipe_t::read.
    method Read() returns (ok: bool, part: Part)
      modifies this`waiting
      ensures ok <==> old(waiting) != []
      ensures ok ==> old(waiting) == [part] + waiting
      ensures !ok ==> waiting == old(waiting)
    {
      ok := waiting != [];
      if ok {
        part, waiting := waiting[0], waiting[1..];
      } else {
        part := Part(0, 0, false);
      }
    }

    // pipe_t::check_hwm, which is full one message earlier than a write finds the pipe full.
    predicate CheckHwm()
      reads this`hwm, this`unread
    {
      !(hwm > 0 && unread >= hwm - 1)
    }

    // pipe_t::check_write, whose only effect is that a full pipe is not active any more.
    predicate CanWrite()
      reads this`outActive, this`hwm, this`unread
    {
      outActive && !(hwm > 0 && unread == hwm)
    }

    // So what passes the check can be written, if the pipe is active; with a limit of one nothing passes.
    lemma CheckedCanWrite()
      ensures CheckHwm() <==> hwm == 0 || unread + 1 < hwm
      ensures CanWrite() <==> Takes(Out())
      ensures CheckHwm() && outActive ==> CanWrite()
      ensures hwm == 1 ==> !CheckHwm()
    {
    }

    // pipe_t::process_activate_write: the peer has read some messages. activated: the sink is to be told.
    method ProcessActivateWrite(left: nat) returns (activated: bool)
      modifies this`unread, this`outActive
      ensures unread == left && outActive && activated == !old(outActive)
    {
      unread, activated, outActive := left, !outActive, true;
    }

    ghost function Out(): Outbound
      reads this`parts, this`tries, this`outActive, this`hwm, this`unread
    {
      Outbound(parts, tries, outActive, hwm, unread)
    }

    // pipe_t::write.
    method Write(ghost part: Part, more: bool) returns (ok: bool)
      requires part.more == more
      modifies this`parts, this`tries, this`outActive, this`unread
      ensures ok == old(CanWrite()) && Out() == AfterOffer(old(Out()), part)
    {
      ok := CanWrite();
      tries := tries + 1;
      if !ok {
        outActive := false;
        return;
      }
      parts := parts + [part];
      if !more {
        unread := unread + 1;
      }
    }
  }

  class PipeArray {
    var items: seq<Pipe>

    // Each item holds its own position; so no item is stored twice.
    ghost predicate Valid()
      reads this, items
    {
      forall i :: 0 <= i < |items| ==> items[i].arrayIndex == i
    }

    constructor ()
      ensures Valid() && items == []
    {
      items := [];
    }

    function Index(p: Pipe): (i: nat)
      requires Valid() && p in items
      reads this, items, p
      ensures i < |items| && items[i] == p
    {
      p.arrayIndex
    }

    method PushBack(p: Pipe)
      requires Valid() && p !in items
      modifies this, p`arrayIndex
      ensures items == old(items) + [p] && Valid()
    {
      p.arrayIndex := |items|;
      items := items + [p];
    }

    // The last item takes the place of the erased one.
    method Erase(p: Pipe)
      requires Valid() && p in items
      modifies this, items`arrayIndex
      ensures Valid() && |items| == |old(items)| - 1 && p !in items
      ensures forall q :: q in items <==> q in old(items) && q != p
      ensures forall q :: q in items ==>
                q.arrayIndex == if old(q.arrayIndex) == |items| then old(p.arrayIndex) else old(q.arrayIndex)
    {
      var i := Index(p);
      var back := items[|items| - 1];
      back.arrayIndex := i;
      items := items[i := back];
      items := items[..|items| - 1];
      assert forall q :: q in items ==> q in old(items);
      forall q | q in old(items) && q != p ensures q in items {
        var k := old(q.arrayIndex);
        assert old(items)[k] == q;
        assert if k == |items| then items[i] == q else items[k] == q;
      }
    }

    method Swap(i: nat, j: nat)
      requires Valid() && i < |items| && j < |items|
      modifies this, items`arrayIndex
      ensures Valid() && |items| == |old(items)|
      ensures items == old(items)[i := old(items)[j]][j := old(items)[i]]
      ensures forall q :: q in items <==> q in old(items)
      ensures forall q :: q in items ==>
                q.arrayIndex ==
                  if old(q.arrayIndex) == i then j
                  else if old(q.arrayIndex) == j then i
                  else old(q.arrayIndex)
    {
      var a, b := items[i], items[j];
      a.arrayIndex := j;
      b.arrayIndex := i;
      items := items[i := b][j := a];
      forall q | q in old(items) ensures q in items {
        var k := old(q.arrayIndex);
        assert old(items)[k] == q;
        assert if k == i then items[j] == q else if k == j then items[i] == q else items[k] == q;
      }
    }
  }
}

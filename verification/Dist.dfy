// dist_t: sends each message part to a set of outbound pipes. The pipes lie in one array whose first
// pipes are matching, then active, then eligible; the rest are passive.
module Dist {
  import opened PA = PipeArray

  // Every part but the first of a message directly follows the part before it.
  ghost predicate Continuous(parts: seq<Part>)
  {
    forall i :: 0 <= i < |parts| && parts[i].index > 0 ==>
      i > 0 && parts[i - 1] == Part(parts[i].message, parts[i].index - 1, true)
  }

  // So a pipe that was written a part was written every earlier part of that message just before it.
  lemma {:induction false} EarlierPartsWritten(parts: seq<Part>, i: nat, j: nat)
    requires Continuous(parts) && i < |parts| && j <= parts[i].index
    ensures parts[i].index - j <= i
    ensures var k := i - (parts[i].index - j);
            parts[k].message == parts[i].message && parts[k].index == j && (j < parts[i].index ==> parts[k].more)
    decreases parts[i].index - j
  {
    if j < parts[i].index { EarlierPartsWritten(parts, i - 1, j); }
  }

  lemma Continued(parts: seq<Part>, part: Part)
    requires Continuous(parts)
    requires part.index > 0 ==>
               |parts| > 0 && parts[|parts| - 1] == Part(part.message, part.index - 1, true)
    ensures Continuous(parts + [part])
  {
  }

  class Dist {
    const pipes: PipeArray
    var matching: nat
    var active: nat
    var eligible: nat
    var more: bool

    ghost var attached: set<Pipe> // every pipe ever attached
    ghost var message: nat // number of the message under way, or of the next one
    ghost var sent: nat // how many of its parts were sent
    ghost var toAll: bool // the send call it uses

    ghost predicate Valid()
      reads this, pipes, pipes.items, attached
    {
      pipes.Valid() && Zones() && Logs()
    }

    // No pipe was ever written a part without the parts before it, and the matching pipes have them all.
    ghost predicate Logs()
      reads this, pipes, pipes.items, attached
    {
      && (forall p :: p in pipes.items ==> p in attached)
      && (forall p :: p in attached ==> Continuous(p.parts))
      && (more ==> sent > 0 && forall p :: p in pipes.items && p.arrayIndex < matching ==> UpToDate(p))
    }

    // Moving pipes between zones, with no new matching pipe, keeps the logs.
    twostate lemma LogsKept()
      requires old(Logs()) && more == old(more) && message == old(message) && sent == old(sent)
      requires forall p :: p in attached ==> p in old(attached) || p.parts == []
      requires forall p :: p in old(attached) ==> p in attached && p.parts == old(p.parts)
      requires forall p :: p in pipes.items ==> p in old(pipes.items) || p in attached
      requires more ==> forall p :: p in pipes.items && p.arrayIndex < matching ==>
                 p in old(pipes.items) && old(p.arrayIndex) < old(matching)
      ensures Logs()
    {
    }

    ghost predicate Zones()
      reads this, pipes
    {
      && matching <= active <= eligible <= |pipes.items|
      && (!more ==> active == eligible && sent == 0)
      && (more && toAll ==> matching == active)
    }

    // The pipe was written every part of the message under way.
    ghost predicate UpToDate(p: Pipe)
      reads this, p
    {
      |p.parts| > 0 && sent > 0 && p.parts[|p.parts| - 1] == Part(message, sent - 1, true)
    }

    // Every pipe but p is in the zones it was in; m, a and e are the ends of the zones now.
    twostate predicate ZonesKeptBut(p: Pipe, m: nat, a: nat, e: nat)
      reads pipes, pipes.items
    {
      && (forall q :: q in pipes.items ==> q in old(pipes.items))
      && forall q :: q in old(pipes.items) && q != p ==>
           q in pipes.items
           && (q.arrayIndex < m <==> old(q.arrayIndex) < old(matching))
           && (q.arrayIndex < a <==> old(q.arrayIndex) < old(active))
           && (q.arrayIndex < e <==> old(q.arrayIndex) < old(eligible))
    }

    constructor ()
      ensures Valid() && fresh(pipes) && pipes.items == [] && attached == {} && !more && matching == 0
    {
      pipes := new PipeArray();
      matching, active, eligible, more := 0, 0, 0, false;
      attached, message, sent, toAll := {}, 0, 0, false;
    }

    // In the middle of a message a new pipe becomes eligible, otherwise active.
    method Attach(p: Pipe)
      requires Valid() && p !in pipes.items && (p in attached || p.parts == [])
      modifies this`active, this`eligible, this`attached, pipes, pipes.items`arrayIndex, p`arrayIndex
      ensures Valid() && attached == old(attached) + {p}
      ensures forall q :: q in pipes.items <==> q in old(pipes.items) || q == p
      ensures matching <= p.arrayIndex < eligible && (p.arrayIndex < active <==> !more)
      ensures forall q :: q in old(pipes.items) ==>
                (q.arrayIndex < matching <==> old(q.arrayIndex) < matching)
                && (q.arrayIndex < active <==> old(q.arrayIndex) < old(active))
                && (q.arrayIndex < eligible <==> old(q.arrayIndex) < old(eligible))
    {
      hide Logs;
      attached := attached + {p};
      if more {
        Admit(p, eligible);
        eligible := eligible + 1;
      } else {
        Admit(p, active);
        active := active + 1;
        eligible := eligible + 1;
      }
      LogsKept();
    }

    // p appended and swapped to position n, whose pipe goes to the end.
    method Admit(p: Pipe, n: nat)
      requires pipes.Valid() && p !in pipes.items && n <= |pipes.items|
      modifies pipes, pipes.items`arrayIndex, p`arrayIndex
      ensures pipes.Valid() && |pipes.items| == old(|pipes.items|) + 1 && p.arrayIndex == n
      ensures forall q :: q in pipes.items <==> q in old(pipes.items) || q == p
      ensures forall q :: q in old(pipes.items) ==>
                q.arrayIndex == if old(q.arrayIndex) == n then old(|pipes.items|) else old(q.arrayIndex)
      ensures forall q :: q in old(pipes.items) ==> 0 <= old(q.arrayIndex) < old(|pipes.items|)
    {
      pipes.PushBack(p);
      pipes.Swap(n, |pipes.items| - 1);
    }

    // Called between whole messages only.
    method Match(p: Pipe)
      requires Valid() && p in pipes.items && !more
      modifies this`matching, pipes, pipes.items`arrayIndex
      ensures Valid()
      ensures forall q :: q in pipes.items <==> q in old(pipes.items)
      ensures forall q :: q in pipes.items ==>
                (q.arrayIndex < matching <==>
                   old(q.arrayIndex) < old(matching) || (q == p && old(q.arrayIndex) < eligible))
                && (q.arrayIndex < active <==> old(q.arrayIndex) < active)
                && (q.arrayIndex < eligible <==> old(q.arrayIndex) < eligible)
    {
      hide Logs;
      if pipes.Index(p) < matching {
        return;
      }
      if pipes.Index(p) >= eligible {
        return;
      }
      pipes.Swap(pipes.Index(p), matching);
      matching := matching + 1;
      LogsKept();
    }

    method Unmatch()
      requires Valid() && !more
      modifies this`matching
      ensures Valid() && matching == 0
    {
      matching := 0;
    }

    method PipeTerminated(p: Pipe)
      requires Valid() && p in pipes.items
      modifies this`matching, this`active, this`eligible, pipes, pipes.items`arrayIndex
      ensures Valid()
      ensures p !in pipes.items && ZonesKeptBut(p, matching, active, eligible)
    {
      hide Logs;
      LeaveZones(p);
      pipes.Erase(p);
      LogsKept();
    }

    method LeaveZones(p: Pipe)
      requires pipes.Valid() && p in pipes.items && matching <= active <= eligible <= |pipes.items|
      modifies this`matching, this`active, this`eligible, pipes, pipes.items`arrayIndex
      ensures pipes.Valid() && |pipes.items| == old(|pipes.items|) && p in pipes.items
      ensures matching <= active <= eligible <= p.arrayIndex
      ensures ZonesKeptBut(p, matching, active, eligible)
      ensures old(matching == active) ==> matching == active
      ensures old(active == eligible) ==> active == eligible
    {
      if pipes.Index(p) < matching {
        LeaveMatching(p, 0);
      }
      if pipes.Index(p) < active {
        LeaveActive(p, 0);
      }
      if pipes.Index(p) < eligible {
        LeaveEligible(p, 0);
      }
    }

    // p swapped to the end of its innermost zone, which shrinks. Positions before i are not touched.
    method LeaveMatching(p: Pipe, ghost i: nat)
      requires pipes.Valid() && p in pipes.items && i <= p.arrayIndex < matching <= active <= eligible <= |pipes.items|
      modifies this`matching, pipes, pipes.items`arrayIndex
      ensures pipes.Valid() && |pipes.items| == old(|pipes.items|) && p in pipes.items
      ensures matching == old(matching) - 1 == p.arrayIndex && ZonesKeptBut(p, matching, active, eligible)
      ensures forall q :: q in pipes.items && q != p ==> (q.arrayIndex < i <==> old(q.arrayIndex) < i)
    {
      pipes.Swap(pipes.Index(p), matching - 1);
      matching := matching - 1;
    }

    method LeaveActive(p: Pipe, ghost i: nat)
      requires pipes.Valid() && p in pipes.items && i <= p.arrayIndex
      requires matching <= p.arrayIndex < active <= eligible <= |pipes.items|
      modifies this`active, pipes, pipes.items`arrayIndex
      ensures pipes.Valid() && |pipes.items| == old(|pipes.items|) && p in pipes.items
      ensures active == old(active) - 1 == p.arrayIndex && ZonesKeptBut(p, matching, active, eligible)
      ensures forall q :: q in pipes.items && q != p ==> (q.arrayIndex < i <==> old(q.arrayIndex) < i)
    {
      pipes.Swap(pipes.Index(p), active - 1);
      active := active - 1;
    }

    method LeaveEligible(p: Pipe, ghost i: nat)
      requires pipes.Valid() && p in pipes.items && i <= p.arrayIndex
      requires matching <= active <= p.arrayIndex < eligible <= |pipes.items|
      modifies this`eligible, pipes, pipes.items`arrayIndex
      ensures pipes.Valid() && |pipes.items| == old(|pipes.items|) && p in pipes.items
      ensures eligible == old(eligible) - 1 == p.arrayIndex && ZonesKeptBut(p, matching, active, eligible)
      ensures forall q :: q in pipes.items && q != p ==> (q.arrayIndex < i <==> old(q.arrayIndex) < i)
    {
      pipes.Swap(pipes.Index(p), eligible - 1);
      eligible := eligible - 1;
    }

    // A passive pipe can be written again.
    method Activated(p: Pipe)
      requires Valid() && p in pipes.items && p.arrayIndex >= eligible
      modifies this`active, this`eligible, pipes, pipes.items`arrayIndex
      ensures Valid()
      ensures forall q :: q in pipes.items <==> q in old(pipes.items)
      ensures forall q :: q in pipes.items ==>
                (q.arrayIndex < matching <==> old(q.arrayIndex) < matching)
                && (q.arrayIndex < active <==> old(q.arrayIndex) < old(active) || (q == p && !more))
                && (q.arrayIndex < eligible <==> old(q.arrayIndex) < old(eligible) || q == p)
    {
      hide Logs;
      pipes.Swap(pipes.Index(p), eligible);
      eligible := eligible + 1;
      if !more {
        pipes.Swap(eligible - 1, active);
        active := active + 1;
      }
      LogsKept();
    }

    // Whether every matching pipe has room.
    method CheckHwm() returns (ok: bool)
      requires Valid()
      ensures ok <==> forall q :: q in pipes.items && q.arrayIndex < matching ==> q.CheckHwm()
    {
      for i := 0 to matching
        invariant forall j :: 0 <= j < i ==> pipes.items[j].CheckHwm()
      {
        if !pipes.items[i].CheckHwm() {
          return false;
        }
      }
      return true;
    }

    // Every part of a message is sent by the same call.
    method SendToAll(msgMore: bool) returns (ghost accepted: set<Pipe>)
      requires Valid() && (more ==> toAll)
      modifies this`matching, this`active, this`eligible, this`more, this`message, this`sent, this`toAll
      modifies pipes, pipes.items
      ensures Valid() && more == msgMore && toAll
      ensures message == (if more then old(message) else old(message) + 1) && sent == if more then old(sent) + 1 else 0
      ensures Delivered(accepted, Part(old(message), old(sent), msgMore), old(active))
    {
      matching := active;
      toAll := true;
      accepted := Send(msgMore);
    }

    method SendToMatching(msgMore: bool) returns (ghost accepted: set<Pipe>)
      requires Valid() && (more ==> !toAll)
      modifies this`matching, this`active, this`eligible, this`more, this`message, this`sent, this`toAll
      modifies pipes, pipes.items
      ensures Valid() && more == msgMore && !toAll
      ensures message == (if more then old(message) else old(message) + 1) && sent == if more then old(sent) + 1 else 0
      ensures Delivered(accepted, Part(old(message), old(sent), msgMore), old(matching))
    {
      hide Continuous, UpToDate;
      toAll := false;
      accepted := Send(msgMore);
    }

    // The pipes before zone got the part if they accepted it and are passive if they did not; every
    // other pipe is as it was, except that the end of a message makes the eligible pipes active.
    twostate predicate Delivered(new accepted: set<Pipe>, part: Part, zone: nat)
      reads this, pipes, pipes.items
    {
      && (forall q :: q in pipes.items ==> q in old(pipes.items))
      && (forall q :: q in accepted ==> q in old(pipes.items) && old(q.arrayIndex) < zone)
      && (forall q :: q in old(pipes.items) ==>
            && q in pipes.items
            && q.Out() == (if old(q.arrayIndex) < zone then AfterOffer(old(q.Out()), part) else old(q.Out()))
            && (q in accepted <==> old(q.arrayIndex) < zone && Takes(old(q.Out())))
            && (q.arrayIndex < matching <==> q in accepted)
            && (q.arrayIndex < eligible <==>
                  old(q.arrayIndex) < old(eligible) && (old(q.arrayIndex) < zone ==> q in accepted))
            && (q.arrayIndex < active <==>
                  if part.more then old(q.arrayIndex) < old(active) && (old(q.arrayIndex) < zone ==> q in accepted)
                  else q.arrayIndex < eligible))
    }

    method Send(msgMore: bool) returns (ghost accepted: set<Pipe>)
      requires Valid() && (toAll ==> matching == active)
      modifies this`matching, this`active, this`eligible, this`more, this`message, this`sent
      modifies pipes, pipes.items
      ensures Valid() && more == msgMore
      ensures message == (if more then old(message) else old(message) + 1) && sent == if more then old(sent) + 1 else 0
      ensures Delivered(accepted, Part(old(message), old(sent), msgMore), old(matching))
    {
      hide Logs, Continuous, UpToDate, Tried, Delivered;
      ghost var part := Part(message, sent, msgMore);
      var failed;
      accepted, failed := Distribute(part, msgMore);
      ghost var a := active;
      if !msgMore {
        active := eligible;
      }
      more := msgMore;
      message, sent := if msgMore then message else message + 1, if msgMore then sent + 1 else 0;
      TriedAll(part, a, accepted);
      TriedZones(part, a, accepted);
      PartLogged(part, accepted);
    }

    // Writing the next part to matching pipes only keeps the logs.
    twostate lemma PartLogged(part: Part, new accepted: set<Pipe>)
      requires old(Logs()) && old(Zones()) && attached == old(attached)
      requires part == Part(old(message), old(sent), more)
      requires (more ==> message == old(message) && sent == old(sent) + 1)
      requires forall q :: q in accepted ==> q in old(pipes.items) && old(q.arrayIndex) < old(matching)
      requires forall q :: q in attached ==> q.parts == if q in accepted then old(q.parts) + [part] else old(q.parts)
      requires forall q :: q in pipes.items ==> q in old(pipes.items) && (q.arrayIndex < matching ==> q in accepted)
      ensures Logs()
    {
      hide Continuous;
      forall q | q in attached ensures Continuous(q.parts) {
        assert old(Continuous(q.parts));
        if q in accepted {
          assert part.index > 0 ==> old(UpToDate(q));
          Continued(old(q.parts), part);
        }
      }
    }

    // A pipe that was matching was tried when the pass has come past it or it was moved out of the zones.
    twostate predicate Attempted(q: Pipe, done: nat)
      reads this`matching, q
    {
      old(q.arrayIndex) < old(matching) && (q.arrayIndex < done || q.arrayIndex >= matching)
    }

    // How far a pass over the matching pipes has come: those before done accepted the part, those up
    // to matching are still to be tried, and those that refused are passive; a is the end of the active zone.
    twostate predicate Tried(part: Part, done: nat, a: nat)
      reads this`matching, this`eligible, pipes, pipes.items
    {
      Passed(done, a) && Records(part, done)
    }

    // Every pipe that was tried was offered the part, and the other pipes were not.
    twostate predicate Records(part: Part, done: nat)
      reads this`matching, pipes, pipes.items
    {
      forall q :: q in old(pipes.items) && q in pipes.items ==>
        && q.Out() == (if Attempted(q, done) then AfterOffer(old(q.Out()), part) else old(q.Out()))
        && (Attempted(q, done) ==> (q.arrayIndex < done <==> Takes(old(q.Out()))))
    }

    twostate predicate Passed(done: nat, a: nat)
      reads this`matching, this`eligible, pipes, pipes.items
    {
      && pipes.Valid() && done <= matching <= a <= eligible <= |pipes.items|
      && (old(matching == active) ==> matching == a)
      && (forall q :: q in pipes.items ==> q in old(pipes.items))
      && (forall q :: q in old(pipes.items) ==>
            && q in pipes.items
            && (old(q.arrayIndex) < old(matching) ==> q.arrayIndex < matching || q.arrayIndex >= eligible)
            && (old(q.arrayIndex) >= old(matching) ==> q.arrayIndex >= matching)
            && (q.arrayIndex < a <==>
                  old(q.arrayIndex) < old(active) && (old(q.arrayIndex) < old(matching) ==> q.arrayIndex < matching))
            && (q.arrayIndex < eligible <==>
                  old(q.arrayIndex) < old(eligible) && (old(q.arrayIndex) < old(matching) ==> q.arrayIndex < matching)))
    }

    // After the pass, the end of a message makes the eligible pipes active.
    twostate lemma TriedAll(new part: Part, new a: nat, new accepted: set<Pipe>)
      requires Tried(part, matching, a) && active == if part.more then a else eligible
      requires accepted == set q | q in pipes.items && q.arrayIndex < matching
      ensures Delivered(accepted, part, old(matching))
    {
    }

    twostate lemma TriedZones(new part: Part, new a: nat, new accepted: set<Pipe>)
      requires old(Valid()) && Tried(part, matching, a) && active == (if part.more then a else eligible)
      requires accepted == set q | q in pipes.items && q.arrayIndex < matching
      requires attached == old(attached)
      ensures pipes.Valid() && matching <= active <= eligible <= |pipes.items|
      ensures old(matching == active) ==> matching == a
      ensures forall q :: q in accepted ==> q in old(pipes.items) && old(q.arrayIndex) < old(matching)
      ensures forall q :: q in pipes.items ==> q in old(pipes.items) && (q.arrayIndex < matching ==> q in accepted)
      ensures forall q :: q in old(pipes.items) ==>
                q.parts == if q in accepted then old(q.parts) + [part] else old(q.parts)
    {
      hide Logs;
    }

    // Every initially matching pipe is tried exactly once and no other is; failed of them refuse. For
    // each of these a reference made for it is given back.
    method Distribute(ghost part: Part, msgMore: bool) returns (ghost accepted: set<Pipe>, failed: nat)
      requires part.more == msgMore && pipes.Valid() && matching <= active <= eligible <= |pipes.items|
      modifies this`matching, this`active, this`eligible, pipes, pipes.items
      ensures Tried(part, matching, active) && failed == old(matching) - matching == old(matching) - |accepted|
      ensures forall q :: q in old(pipes.items) ==>
                q.Out() == if old(q.arrayIndex) < old(matching) then AfterOffer(old(q.Out()), part) else old(q.Out())
      ensures accepted == set q | q in pipes.items && q.arrayIndex < matching
      ensures forall q :: q in accepted <==>
                q in old(pipes.items) && old(q.arrayIndex) < old(matching) && Takes(old(q.Out()))
    {
      hide Tried;
      failed := 0;
      if matching > 0 { // with no matching pipe the part is dropped
        failed := TryAll(part, msgMore);
      } else {
        NoneTried(part);
      }
      accepted := set q | q in pipes.items && q.arrayIndex < matching;
      TriedOnce(part);
      ZoneSize(matching);
    }

    twostate lemma NoneTried(new part: Part)
      requires pipes.Valid() && matching <= active <= eligible <= |pipes.items| && matching == 0
      requires pipes.items == old(pipes.items) && forall q :: q in pipes.items ==> unchanged(q)
      requires matching == old(matching) && active == old(active) && eligible == old(eligible)
      ensures Tried(part, 0, active)
    {
    }

    twostate lemma TriedOnce(part: Part)
      requires Tried(part, matching, active)
      ensures pipes.Valid() && matching <= |pipes.items|
      ensures forall q :: q in pipes.items && q.arrayIndex < matching <==>
                q in old(pipes.items) && old(q.arrayIndex) < old(matching) && Takes(old(q.Out()))
      ensures forall q :: q in old(pipes.items) ==>
                q.Out() == if old(q.arrayIndex) < old(matching) then AfterOffer(old(q.Out()), part) else old(q.Out())
    {
    }

    method TryAll(ghost part: Part, msgMore: bool) returns (failed: nat)
      requires part.more == msgMore && pipes.Valid() && matching <= active <= eligible <= |pipes.items|
      modifies this`matching, this`active, this`eligible, pipes, pipes.items
      ensures Tried(part, matching, active) && failed == old(matching) - matching
    {
      hide Pipe.Out, AfterOffer, Takes;
      failed := 0;
      var i := 0;
      ghost var tried: set<Pipe> := {};
      while i < matching
        invariant Passed(i, active) && matching + failed == old(matching)
        invariant forall q :: q in pipes.items ==> (q in tried <==> Attempted(q, i))
        invariant forall q :: q in pipes.items && q in tried ==> (q.arrayIndex < i <==> Takes(old(q.Out())))
        invariant forall q :: q in pipes.items ==>
                    q.Out() == if q in tried then AfterOffer(old(q.Out()), part) else old(q.Out())
        decreases matching - i
      {
        var p := pipes.items[i];
        var ok := Write(p, part, msgMore, i);
        assert forall q :: q in pipes.items && q.arrayIndex == p.arrayIndex ==> q == p;
        tried := tried + {p};
        if ok {
          i := i + 1;
        } else {
          failed := failed + 1; // the same position holds another pipe now
        }
      }
    }

    // The first n pipes of the array are n.
    lemma {:induction false} ZoneSize(n: nat)
      requires pipes.Valid() && n <= |pipes.items|
      ensures |set q | q in pipes.items && q.arrayIndex < n| == n
    {
      var zone := set q | q in pipes.items && q.arrayIndex < n;
      if n == 0 {
        assert zone == {};
      } else {
        var last := pipes.items[n - 1];
        ZoneSize(n - 1);
        assert zone == (set q | q in pipes.items && q.arrayIndex < n - 1) + {last};
      }
    }

    method Write(p: Pipe, ghost part: Part, msgMore: bool, ghost i: nat) returns (ok: bool)
      requires part.more == msgMore && pipes.Valid()
      requires i < matching <= active <= eligible <= |pipes.items| && p == pipes.items[i]
      modifies this`matching, this`active, this`eligible, pipes, pipes.items`arrayIndex
      modifies p`parts, p`tries, p`outActive, p`unread
      ensures pipes.Valid() && p in pipes.items
      ensures ok == Takes(old(p.Out())) && p.Out() == AfterOffer(old(p.Out()), part)
      ensures ok ==>
                pipes.items == old(pipes.items) && matching == old(matching) && active == old(active)
                && eligible == old(eligible)
      ensures !ok ==>
                matching == old(matching) - 1 && active == old(active) - 1
                && eligible == old(eligible) - 1 == p.arrayIndex
                && |pipes.items| == old(|pipes.items|) && ZonesKeptBut(p, matching, active, eligible)
                && forall q :: q in pipes.items ==> (q.arrayIndex < i <==> old(q.arrayIndex) < i)
      ensures forall q :: q in old(pipes.items) && q != p ==> q.Out() == old(q.Out())
    {
      ok := p.Write(part, msgMore);
      if !ok {
        LeaveMatching(p, i);
        LeaveActive(p, i);
        LeaveEligible(p, i);
      }
    }
  }
}

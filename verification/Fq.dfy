// fq_t: fair queueing of messages over the inbound pipes. The active pipes lie first in the array.
module Fq {
  import opened PA = PipeArray

  // A pipe shows whole messages only: what can be read ends with a last part.
  predicate Whole(parts: seq<Part>)
  {
    parts == [] || !parts[|parts| - 1].more
  }

  // How many messages end among the parts served.
  function Ends(served: seq<(Pipe, Part)>): nat
  {
    if served == [] then 0 else Ends(served[..|served| - 1]) + if served[|served| - 1].1.more then 0 else 1
  }

  // Those of one pipe.
  function PartsOf(served: seq<(Pipe, Part)>, p: Pipe): seq<Part>
  {
    if served == [] then []
    else
      PartsOf(served[..|served| - 1], p)
      + if served[|served| - 1].0 == p then [served[|served| - 1].1] else []
  }

  lemma NoneServed()
    ensures Ends([]) == 0 && forall q :: PartsOf([], q) == []
  {
  }

  lemma NextServed(served: seq<(Pipe, Part)>, p: Pipe, part: Part)
    ensures Ends(served + [(p, part)]) == Ends(served) + if part.more then 0 else 1
    ensures forall q :: PartsOf(served + [(p, part)], q) == PartsOf(served, q) + if q == p then [part] else []
  {
    assert (served + [(p, part)])[..|served|] == served;
  }

  class Fq {
    const pipes: PipeArray
    var active: nat
    var current: nat
    var lastIn: Pipe?
    var more: bool

    // In the middle of a message the rest of it waits in the current pipe.
    ghost predicate Valid()
      reads this, pipes, pipes.items
    {
      Shape() && (more ==> active > 0 && pipes.items[current].waiting != [])
    }

    ghost predicate Shape()
      reads this, pipes, pipes.items
    {
      && pipes.Valid() && active <= |pipes.items|
      && (if active == 0 then current == 0 else current < active)
      && (forall p :: p in pipes.items ==> Whole(p.waiting))
    }

    // How many pipes come before p in the round, p being active.
    function Distance(p: Pipe): (d: int)
      reads this, p
    {
      if p.arrayIndex >= current then p.arrayIndex - current else p.arrayIndex - current + active
    }

    ghost predicate Ready(p: Pipe)
      reads this, pipes, p
    {
      p in pipes.items && p.arrayIndex < active && p.waiting != []
    }

    constructor ()
      ensures Valid() && fresh(pipes) && pipes.items == [] && !more
    {
      pipes := new PipeArray();
      active, current, lastIn, more := 0, 0, null, false;
    }

    method Attach(p: Pipe)
      requires Valid() && p !in pipes.items && Whole(p.waiting)
      modifies this`active, pipes, pipes.items`arrayIndex, p`arrayIndex
      ensures Valid() && p in pipes.items && p.arrayIndex == old(active) && active == old(active) + 1
      ensures forall q :: q in pipes.items <==> q in old(pipes.items) || q == p
      ensures forall q :: q in old(pipes.items) ==> (q.arrayIndex < active <==> old(q.arrayIndex) < old(active))
    {
      pipes.PushBack(p);
      pipes.Swap(active, |pipes.items| - 1);
      active := active + 1;
    }

    twostate predicate SameCurrent()
      requires old(current) < |old(pipes.items)|
      reads this, pipes
    {
      active > 0 && current < |pipes.items| && pipes.items[current] == old(pipes.items[current])
    }

    // In the middle of a message the pipe that is being read stays the current one if and only if it is not p
    // and, if p is active, either it is not the last of the active pipes or p is the first. Otherwise the
    // next part is taken from another pipe, if any is active.
    method PipeTerminated(p: Pipe)
      requires Valid() && p in pipes.items
      modifies this`active, this`current, this`lastIn, pipes, pipes.items`arrayIndex
      ensures Shape() && lastIn != p && (old(lastIn) != p ==> lastIn == old(lastIn))
      ensures active == if old(p.arrayIndex) < old(active) then old(active) - 1 else old(active)
      ensures !more ==> Valid()
      ensures more ==>
                (SameCurrent() <==>
                   old(p.arrayIndex) != old(current)
                   && (old(p.arrayIndex) >= old(active) || old(current) + 1 < old(active) || old(p.arrayIndex) == 0))
                && (SameCurrent() ==> Valid())
      ensures more && active > 0 && !SameCurrent() ==>
                pipes.items[current]
                == old(pipes.items)[if old(p.arrayIndex) == old(current) < active then active else 0]
      ensures forall q :: q in pipes.items <==> q in old(pipes.items) && q != p
      ensures forall q :: q in pipes.items ==> (q.arrayIndex < active <==> old(q.arrayIndex) < old(active))
    {
      LeaveRound(p);
      assert forall i :: 0 <= i < |pipes.items| ==> pipes.items[i] in old(pipes.items);
      pipes.Erase(p);
      if lastIn == p {
        lastIn := null;
      }
    }

    // p swapped out of the active pipes.
    method LeaveRound(p: Pipe)
      requires Shape() && p in pipes.items && (active == 0 ==> !more)
      modifies this`active, this`current, pipes, pipes.items`arrayIndex
      ensures Shape() && p in pipes.items && active <= p.arrayIndex && |pipes.items| == old(|pipes.items|)
      ensures forall q :: q in pipes.items <==> q in old(pipes.items)
      ensures forall q :: q in pipes.items && q != p ==> (q.arrayIndex < active <==> old(q.arrayIndex) < old(active))
      ensures if old(p.arrayIndex) >= old(active) then unchanged(this) && unchanged(pipes) && unchanged(pipes.items)
              else active == old(active) - 1
      ensures old(p.arrayIndex) < old(active) && active > 0 ==>
                current == (if old(current) == active then 0 else old(current))
                && pipes.items[current]
                   == if current == old(p.arrayIndex) then old(pipes.items)[active] else old(pipes.items)[current]
    {
      var index := pipes.Index(p);
      if index < active {
        active := active - 1;
        pipes.Swap(index, active);
        if current == active {
          current := 0;
        }
      }
    }

    // The last active pipe is being read when another one, not the first, terminates: the next part comes
    // from the first pipe, in the middle of the other one's message.
    method MixedUp(p: Pipe) returns (ok: bool, part: Part, pipe: Pipe?)
      requires Valid() && more && p in pipes.items && current == active - 1
      requires 0 < p.arrayIndex < current && pipes.items[0].waiting != []
      modifies this`active, this`current, this`lastIn, this`more, pipes, pipes.items
      ensures ok && pipe == old(pipes.items[0]) != old(pipes.items[current])
      ensures old(pipes.items[0].waiting) == [part] + pipe.waiting
    {
      PipeTerminated(p);
      assert forall i :: 0 <= i < |pipes.items| ==> pipes.items[i] in old(pipes.items);
      ok, part, pipe := RecvPipe();
    }

    method Activated(p: Pipe)
      requires Valid() && p in pipes.items && p.arrayIndex >= active
      modifies this`active, pipes, pipes.items`arrayIndex
      ensures Valid() && active == old(active) + 1
      ensures forall q :: q in pipes.items <==> q in old(pipes.items)
      ensures forall q :: q in pipes.items ==> (q.arrayIndex < active <==> old(q.arrayIndex) < old(active) || q == p)
    {
      pipes.Swap(pipes.Index(p), active);
      active := active + 1;
    }

    // Pipes found empty have left the round; the pipes with messages have come no further back in it.
    twostate predicate Skipped()
      reads this, pipes, pipes.items
    {
      && pipes.Valid() && active <= |pipes.items| && active <= old(active)
      && (if active == 0 then current == 0 else current < active)
      && (forall q :: q in pipes.items ==> q in old(pipes.items))
      && (forall q :: q in old(pipes.items) ==> q in pipes.items && q.waiting == old(q.waiting))
      && (forall q :: q in pipes.items && q.arrayIndex < active ==> old(q.arrayIndex) < old(active))
      && (forall q :: q in pipes.items && old(Ready(q)) ==> Ready(q) && Distance(q) <= old(Distance(q)))
    }

    // The current pipe, found empty, is swapped out of the round.
    method Deactivate()
      requires pipes.Valid() && current < active <= |pipes.items| && pipes.items[current].waiting == []
      modifies this`active, this`current, pipes, pipes.items`arrayIndex
      ensures Skipped() && active == old(active) - 1
    {
      active := active - 1;
      pipes.Swap(current, active);
      if current == active {
        current := 0;
      }
    }

    method RecvPipe() returns (ok: bool, part: Part, pipe: Pipe?)
      requires Valid()
      modifies this`active, this`current, this`lastIn, this`more, pipes, pipes.items
      ensures Valid()
      ensures forall q :: q in pipes.items <==> q in old(pipes.items)
      ensures !ok ==> active == 0 && !more && forall q :: q in pipes.items ==>
                q.waiting == old(q.waiting) && !old(Ready(q))
      ensures ok ==>
                pipe != null && pipe in old(pipes.items) && old(Ready(pipe))
                && old(pipe.waiting) == [part] + pipe.waiting
      ensures ok ==> forall q :: q in pipes.items && q != pipe ==> q.waiting == old(q.waiting)
      ensures ok ==> more == part.more && (more ==> pipe == pipes.items[current]) && (!more ==> lastIn == pipe)
      ensures ok && old(more) ==> pipe == old(pipes.items[current])
      ensures ok ==> forall q :: q in pipes.items && old(Ready(q)) && q != pipe ==>
                Ready(q) && Distance(q) <= old(Distance(q)) - if more then 0 else 1
    {
      while active > 0
        invariant Skipped() && more == old(more)
        invariant more ==> current == old(current) && active == old(active) && pipes.items == old(pipes.items)
        decreases active
      {
        var p := pipes.items[current];
        if p.waiting != [] {
          ok, part := p.Read();
          pipe := p;
          Advance(part);
          return;
        }
        assert !more;
        assert forall i :: 0 <= i < |pipes.items| ==> pipes.items[i] in old(pipes.items);
        Deactivate();
      }
      ok, part, pipe := false, Part(0, 0, false), null;
    }

    // After a fetch: at the end of a message the next pipe has its turn.
    method Advance(part: Part)
      requires pipes.Valid() && current < active <= |pipes.items|
      modifies this`more, this`lastIn, this`current
      ensures current < active && more == part.more
      ensures more ==> current == old(current)
      ensures !more ==> lastIn == pipes.items[old(current)]
      ensures forall q :: q in pipes.items && q.arrayIndex < active && q != pipes.items[old(current)] ==>
                Distance(q) <= old(Distance(q)) - if more then 0 else 1
    {
      more := part.more;
      if !more {
        lastIn := pipes.items[current];
        NextInRound(current);
        current := (current + 1) % active;
      }
    }

    lemma NextInRound(i: nat)
      requires i < active
      ensures (i + 1) % active == if i + 1 == active then 0 else i + 1
    {
    }

    method HasIn() returns (r: bool)
      requires Valid()
      modifies this`active, this`current, pipes, pipes.items`arrayIndex
      ensures Valid() && Skipped()
      ensures r ==> exists q :: q in pipes.items && old(Ready(q))
      ensures !r ==> forall q :: q in pipes.items ==> !old(Ready(q))
    {
      if more {
        assert Ready(pipes.items[current]);
        return true;
      }
      while active > 0
        invariant Skipped()
        decreases active
      {
        var p := pipes.items[current];
        if p.waiting != [] {
          assert p in pipes.items && old(Ready(p));
          return true;
        }
        assert forall i :: 0 <= i < |pipes.items| ==> pipes.items[i] in old(pipes.items);
        Deactivate();
      }
      return false;
    }

    // What the pipes held before is what they were served and what they still hold.
    ghost predicate Accounts(before: map<Pipe, seq<Part>>, served: seq<(Pipe, Part)>)
      reads before.Keys
    {
      forall q :: q in before ==> before[q] == PartsOf(served, q) + q.waiting
    }

    lemma AccountsNone(before: map<Pipe, seq<Part>>)
      requires forall q :: q in before ==> before[q] == q.waiting
      ensures Accounts(before, [])
    {
    }

    lemma AccountsAre(before: map<Pipe, seq<Part>>, served: seq<(Pipe, Part)>, q: Pipe)
      requires Accounts(before, served) && q in before
      ensures before[q] == PartsOf(served, q) + q.waiting
    {
    }

    // p is the pipe that the message under way comes from.
    ghost predicate Reading(p: Pipe?)
      reads this, pipes
    {
      more ==> current < |pipes.items| && p == pipes.items[current]
    }

    lemma Near(t: Pipe)
      requires Valid() && Ready(t)
      ensures 0 <= Distance(t) < active && t in pipes.items
    {
    }

    // One receive, while t has something to read.
    method ServeNext(
        ghost before: map<Pipe, seq<Part>>, ghost earlier: seq<(Pipe, Part)>, ghost last: Pipe?, t: Pipe)
      returns (pipe: Pipe, part: Part)
      requires Valid() && Ready(t) && Reading(last) && Accounts(before, earlier)
      requires forall q :: q in before <==> q in pipes.items
      modifies this`active, this`current, this`lastIn, this`more, pipes, pipes.items
      ensures Valid() && pipe in old(pipes.items) && more == part.more && Reading(pipe)
      ensures forall q :: q in pipes.items <==> q in old(pipes.items)
      ensures pipe != t ==> Ready(t) && Distance(t) <= old(Distance(t)) - if more then 0 else 1
      ensures old(more) ==> pipe == last
      ensures old(pipe.waiting) == [part] + pipe.waiting && Accounts(before, earlier + [(pipe, part)])
    {
      hide PartsOf;
      var ok, read;
      ok, part, read := RecvPipe();
      pipe := read;
      NextServed(earlier, pipe, part);
      assert PartsOf(earlier, pipe) + ([part] + pipe.waiting) == PartsOf(earlier, pipe) + [part] + pipe.waiting;
      forall q | q in before && q != pipe ensures PartsOf(earlier + [(pipe, part)], q) == PartsOf(earlier, q) {
        assert PartsOf(earlier, q) + [] == PartsOf(earlier, q);
      }
    }

    // A run of receives, up to the one that serves t.
    method AwaitFrom(
        ghost before: map<Pipe, seq<Part>>, earlier: seq<(Pipe, Part)>, ghost last: Pipe?, t: Pipe)
      returns (served: seq<(Pipe, Part)>)
      requires Valid() && Ready(t) && Reading(last) && Accounts(before, earlier) && PartsOf(earlier, t) == []
      requires (forall q :: q in before <==> q in pipes.items) && (more ==> last != null)
      modifies this`active, this`current, this`lastIn, this`more, pipes, pipes.items
      ensures Valid() && served != [] && Ends(served[..|served| - 1]) <= Ends(earlier) + old(Distance(t))
      ensures served[|served| - 1].0 == t && PartsOf(served[..|served| - 1], t) == [] && Accounts(before, served)
      decreases Distance(t), if more then 0 else 1, if more then |last.waiting| else 0
    {
      hide Ends, PartsOf, Accounts, Valid, Ready, Distance, Reading;
      Near(t);
      var pipe, part := ServeNext(before, earlier, last, t);
      served := earlier + [(pipe, part)];
      NextServed(earlier, pipe, part);
      if pipe == t {
        assert served[..|served| - 1] == earlier;
      } else {
        Near(t);
        forall j | 0 <= j < |pipes.items| ensures pipes.items[j] in old(pipes.items) {
          assert pipes.items[j] in pipes.items && pipes.items[j] in before;
        }
        served := AwaitFrom(before, served, pipe, t);
      }
    }

    // served are the parts that come, and their pipes: before the last of them, which is that of t, at most
    // Distance(t), hence fewer than active, end a message.
    method AwaitPipe(t: Pipe) returns (served: seq<(Pipe, Part)>)
      requires Valid() && Ready(t)
      modifies this`active, this`current, this`lastIn, this`more, pipes, pipes.items
      ensures Valid() && served != [] && Ends(served[..|served| - 1]) <= old(Distance(t)) < old(active)
      ensures served[|served| - 1].0 == t && PartsOf(served[..|served| - 1], t) == []
      ensures forall q :: q in old(pipes.items) ==> old(q.waiting) == PartsOf(served, q) + q.waiting
    {
      NoneServed();
      Near(t);
      StartsReading();
      ghost var before := map q | q in pipes.items :: q.waiting;
      AccountsNone(before);
      hide Ends, PartsOf, Accounts, Valid, Ready, Distance;
      served := AwaitFrom(before, [], if more then pipes.items[current] else null, t);
      forall q | q in before ensures old(q.waiting) == PartsOf(served, q) + q.waiting {
        AccountsAre(before, served, q);
      }
    }

    lemma StartsReading()
      requires Valid()
      ensures more ==> current < |pipes.items|
    {
    }
  }
}

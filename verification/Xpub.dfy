// xpub_t: a message goes to the pipes that are subscribed to a prefix of it, and the user is told about
// first and last subscriptions.
module Xpub {
  import opened Common
  import PA = PipeArray
  import D = Dist
  import opened MtrieModel
  import opened MtrieTheorem
  import M = Mtrie
  import opened XpubModel

  class Xpub {
    const subscriptions: M.MtrieNode
    const dist: D.Dist
    var verbose: bool
    var more: bool
    var lossy: bool
    var pending: seq<Message> // pending_data
    var peers: map<Pipe, PA.Pipe> // the pipe at each address

    ghost var messages: seq<Message> // everything that was ever pending
    ghost var all: bool // a pipe was attached for all messages

    ghost predicate Valid()
      reads this, subscriptions, subscriptions.Repr, dist, dist.pipes, dist.pipes.items, dist.attached
    {
      && subscriptions.Valid() && Canonical(subscriptions.T)
      && dist.Valid() && more == dist.more && (more ==> !dist.toAll)
      && Linked(subscriptions.T)
      && Informed(messages, subscriptions.T, all)
      && |pending| <= |messages| && messages[|messages| - |pending|..] == pending
    }

    // Every subscription is that of an attached pipe.
    ghost predicate Linked(t: Trie)
      reads this`peers, dist.pipes
    {
      && (forall a :: a in peers ==> peers[a] in dist.pipes.items)
      && (forall a, b :: a in peers && b in peers && a != b ==> peers[a] != peers[b])
      && (forall k, a :: Has(t, k, a) ==> a in peers)
    }

    // p is subscribed to a prefix of data.
    ghost predicate Wanted(p: PA.Pipe, data: Key)
      reads this`peers, subscriptions`T
    {
      exists a :: a in peers && peers[a] == p && Wants(subscriptions.T, data, a)
    }

    constructor (verbose: bool, lossy: bool)
      ensures Valid() && fresh(subscriptions.Repr) && fresh(dist) && fresh(dist.pipes) && dist.pipes.items == []
      ensures this.verbose == verbose && this.lossy == lossy && !more && !all && messages == pending == []
      ensures dist.matching == 0 && peers == map[]
    {
      hide *;
      this.verbose, this.lossy, more, pending, peers := verbose, lossy, false, [], map[];
      messages, all := [], false;
      subscriptions := new M.MtrieNode();
      dist := new D.Dist();
      new;
      StartsValid();
    }

    lemma StartsValid()
      requires subscriptions.Valid() && subscriptions.T == Fresh && dist.Valid() && !more && !dist.more
      requires peers == map[] && messages == [] && pending == [] && !all
      ensures Valid()
    {
      hide Canonical, Informed, M.MtrieNode.Valid, D.Dist.Valid;
      NobodyThere(false);
    }

    method Notify(m: Message)
      requires |pending| <= |messages| && messages[|messages| - |pending|..] == pending
      modifies this`pending, this`messages
      ensures messages == old(messages) + [m] && pending == old(pending) + [m]
      ensures |pending| <= |messages| && messages[|messages| - |pending|..] == pending
    {
      pending, messages := pending + [m], messages + [m];
    }

    method AddTopic(topic: Key, a: Pipe) returns (unique: bool)
      requires subscriptions.Valid() && Canonical(subscriptions.T)
      modifies subscriptions.Repr
      ensures subscriptions.Valid() && Canonical(subscriptions.T)
      ensures fresh(subscriptions.Repr - old(subscriptions.Repr))
      ensures WithOne(old(subscriptions.T), subscriptions.T, topic, a)
      ensures unique <==> !Watched(old(subscriptions.T), topic)
    {
      hide Canonical, M.MtrieNode.Valid;
      unique := subscriptions.AddSubscription(topic, a);
    }

    method RmTopic(topic: Key, a: Pipe) returns (unique: bool)
      requires subscriptions.Valid() && Canonical(subscriptions.T) && Erases(subscriptions.T, topic, a)
      modifies subscriptions.Repr
      ensures subscriptions.Valid() && Canonical(subscriptions.T) && subscriptions.Repr == old(subscriptions.Repr)
      ensures WithoutOne(old(subscriptions.T), subscriptions.T, topic, a)
      ensures unique <==> NodeAt(old(subscriptions.T), topic) && !Watched(subscriptions.T, topic)
    {
      hide Canonical, Erases, M.MtrieNode.Valid;
      unique := subscriptions.RmSubscription(topic, a);
    }

    // Which messages from a pipe are passed on to the user: first subscriptions, all subscriptions if
    // verbose, unsubscriptions that leave a node with no subscriber, and whatever is neither.
    ghost predicate Tells(t: Trie, u: Trie, sub: Message)
      reads this`verbose
    {
      if sub != [] && sub[0] == 1 then !Watched(t, sub[1..]) || verbose
      else if sub != [] && sub[0] == 0 then NodeAt(t, sub[1..]) && !Watched(u, sub[1..])
      else true
    }

    // One message from a pipe. An unsubscription needs what the assertion in rm needs.
    method ReadActivated(a: Pipe, sub: Message)
      requires Valid() && a in peers
      requires sub != [] && sub[0] == UNSUBSCRIBE ==> Erases(subscriptions.T, sub[1..], a)
      modifies this`pending, this`messages, subscriptions.Repr
      ensures Valid() && fresh(subscriptions.Repr - old(subscriptions.Repr))
      ensures if sub != [] && sub[0] == 1 then WithOne(old(subscriptions.T), subscriptions.T, sub[1..], a)
              else if sub != [] && sub[0] == 0 then
                WithoutOne(old(subscriptions.T), subscriptions.T, sub[1..], a)
              else subscriptions.T == old(subscriptions.T)
      ensures var notice := if Tells(old(subscriptions.T), subscriptions.T, sub) then [sub] else [];
              messages == old(messages) + notice && pending == old(pending) + notice
    {
      hide Canonical, Erases, Watched, M.MtrieNode.Valid, D.Dist.Logs, D.Dist.Zones, PA.PipeArray.Valid, Told;
      hide WithOne, WithoutOne, Informed;
      ghost var t, before := subscriptions.T, messages;
      if |sub| > 0 && (sub[0] == UNSUBSCRIBE || sub[0] == SUBSCRIBE) {
        var topic := sub[1..];
        var unique;
        assert sub == [sub[0]] + topic;
        if sub[0] == UNSUBSCRIBE {
          unique := RmTopic(topic, a);
          RemoveInformed(messages, t, subscriptions.T, topic, a, all, unique);
          StillLinked(t, subscriptions.T, a, topic);
        } else {
          unique := AddTopic(topic, a);
          AddInformed(messages, t, subscriptions.T, topic, a, all, unique || verbose);
          StillLinked(t, subscriptions.T, a, topic);
        }
        if unique || (sub[0] != 0 && verbose) {
          Notify(sub);
        }
      } else {
        OtherInformed(messages, sub, t, all);
        Notify(sub);
      }
    }

    lemma StillLinked(t: Trie, u: Trie, a: Pipe, topic: Key)
      requires Linked(t) && a in peers && (WithOne(t, u, topic, a) || WithoutOne(t, u, topic, a))
      ensures Linked(u)
    {
    }

    // A pipe attached for all messages is subscribed to the empty topic, of which the user is not told.
    method AttachPipe(a: Pipe, p: PA.Pipe, subscribeToAll: bool)
      requires Valid() && a !in peers && p !in dist.pipes.items && (p in dist.attached || p.parts == [])
      modifies this`peers, this`all, dist`active, dist`eligible, dist`attached, dist.pipes
      modifies dist.pipes.items`arrayIndex, p`arrayIndex, subscriptions.Repr
      ensures Valid() && fresh(subscriptions.Repr - old(subscriptions.Repr))
      ensures peers == old(peers)[a := p] && dist.matching <= p.arrayIndex < dist.eligible
      ensures p.arrayIndex < dist.active <==> !more
      ensures forall q :: q in dist.pipes.items <==> q in old(dist.pipes.items) || q == p
      ensures forall q :: q in old(dist.pipes.items) ==>
                (q.arrayIndex < dist.matching <==> old(q.arrayIndex) < dist.matching)
                && (q.arrayIndex < dist.active <==> old(q.arrayIndex) < old(dist.active))
                && (q.arrayIndex < dist.eligible <==> old(q.arrayIndex) < old(dist.eligible))
      ensures all == (old(all) || subscribeToAll)
      ensures if subscribeToAll then WithOne(old(subscriptions.T), subscriptions.T, [], a)
              else subscriptions.T == old(subscriptions.T)
    {
      hide Canonical, Watched, M.MtrieNode.Valid, D.Dist.Logs, D.Dist.Zones, PA.PipeArray.Valid, Told, D.Dist.Valid;
      hide WithOne, Informed;
      dist.Attach(p);
      peers := peers[a := p];
      if subscribeToAll {
        SubscribeToAll(a);
      }
    }

    // The first subscription to the empty topic, made by attaching for all messages, is kept from the user.
    method AttachedUntold(a: Pipe, p: PA.Pipe)
      requires Valid() && a !in peers && p !in dist.pipes.items && (p in dist.attached || p.parts == [])
      requires !Watched(subscriptions.T, [])
      modifies this`peers, this`all, dist`active, dist`eligible, dist`attached, dist.pipes
      modifies dist.pipes.items`arrayIndex, p`arrayIndex, subscriptions.Repr
      ensures Valid() && Watched(subscriptions.T, []) && !Told(messages, [])
    {
      hide Canonical, M.MtrieNode.Valid, D.Dist.Valid, Told;
      ghost var t := subscriptions.T;
      AttachPipe(a, p, true);
      AddWatched(t, subscriptions.T, [], a, []);
    }

    method SubscribeToAll(a: Pipe)
      requires Valid() && a in peers
      modifies this`all, subscriptions.Repr
      ensures Valid() && fresh(subscriptions.Repr - old(subscriptions.Repr)) && all
      ensures WithOne(old(subscriptions.T), subscriptions.T, [], a)
    {
      hide Canonical, Watched, M.MtrieNode.Valid, PA.PipeArray.Valid, Told, D.Dist.Valid, WithOne, Informed;
      ghost var t := subscriptions.T;
      var unique := AddTopic([], a);
      AllInformed(messages, t, subscriptions.T, a, all);
      StillLinked(t, subscriptions.T, a, []);
      all := true;
    }

    method PipeTerminated(a: Pipe) returns (ghost topics: seq<Key>)
      requires Valid() && a in peers
      modifies this`peers, this`pending, this`messages, dist`matching, dist`active, dist`eligible, dist.pipes
      modifies dist.pipes.items`arrayIndex, subscriptions.Repr
      ensures Valid() && subscriptions.Repr == old(subscriptions.Repr) && peers == old(peers) - {a}
      ensures WithoutAll(old(subscriptions.T), subscriptions.T, a)
      ensures forall q :: q in dist.pipes.items <==> q in old(dist.pipes.items) && q != old(peers[a])
      ensures forall q :: q in dist.pipes.items ==>
                (q.arrayIndex < dist.matching <==> old(q.arrayIndex) < old(dist.matching))
                && (q.arrayIndex < dist.active <==> old(q.arrayIndex) < old(dist.active))
                && (q.arrayIndex < dist.eligible <==> old(q.arrayIndex) < old(dist.eligible))
      ensures messages == old(messages) + Unsubscriptions(topics) && pending == old(pending) + Unsubscriptions(topics)
      ensures forall k :: multiset(topics)[k] == if Sole(old(subscriptions.T), k, a) then 1 else 0
    {
      hide Canonical, Watched, M.MtrieNode.Valid, D.Dist.Logs, D.Dist.Zones, PA.PipeArray.Valid, Told, D.Dist.Valid;
      hide Informed, WithoutAll;
      topics := Unsubscribe(a);
      dist.PipeTerminated(peers[a]);
      peers := peers - {a};
    }

    // All subscriptions of a pipe go, and the user is told of the topics that nobody is left for.
    method Unsubscribe(a: Pipe) returns (topics: seq<Key>)
      requires Valid()
      modifies this`pending, this`messages, subscriptions.Repr
      ensures Valid() && subscriptions.Repr == old(subscriptions.Repr)
      ensures WithoutAll(old(subscriptions.T), subscriptions.T, a) && forall k :: !Has(subscriptions.T, k, a)
      ensures messages == old(messages) + Unsubscriptions(topics) && pending == old(pending) + Unsubscriptions(topics)
      ensures forall k :: multiset(topics)[k] == if Sole(old(subscriptions.T), k, a) then 1 else 0
    {
      hide Canonical, Watched, M.MtrieNode.Valid, PA.PipeArray.Valid, Told, D.Dist.Valid, Informed, WithoutAll;
      ghost var t := subscriptions.T;
      topics := RmPipe(a);
      RemovePipeInformed(messages, t, subscriptions.T, a, all, topics);
      Unlinked(t, subscriptions.T, a);
      NotifyAll(topics);
    }

    // The callback send_unsubscription, for one topic after the other.
    method NotifyAll(topics: seq<Key>)
      requires |pending| <= |messages| && messages[|messages| - |pending|..] == pending
      modifies this`pending, this`messages
      ensures messages == old(messages) + Unsubscriptions(topics) && pending == old(pending) + Unsubscriptions(topics)
      ensures |pending| <= |messages| && messages[|messages| - |pending|..] == pending
    {
      var i := 0;
      assert messages + Unsubscriptions(topics[..0]) == messages && pending + Unsubscriptions(topics[..0]) == pending;
      while i < |topics|
        invariant i <= |topics| && messages == old(messages) + Unsubscriptions(topics[..i])
        invariant pending == old(pending) + Unsubscriptions(topics[..i])
        invariant |pending| <= |messages| && messages[|messages| - |pending|..] == pending
      {
        assert Unsubscriptions(topics[..i + 1]) == Unsubscriptions(topics[..i]) + [[UNSUBSCRIBE] + topics[i]];
        Notify([UNSUBSCRIBE] + topics[i]);
        i := i + 1;
      }
      assert topics[..i] == topics;
    }

    method RmPipe(a: Pipe) returns (topics: seq<Key>)
      requires subscriptions.Valid() && Canonical(subscriptions.T)
      modifies subscriptions.Repr
      ensures subscriptions.Valid() && Canonical(subscriptions.T) && subscriptions.Repr == old(subscriptions.Repr)
      ensures WithoutAll(old(subscriptions.T), subscriptions.T, a)
      ensures forall k :: multiset(topics)[k] == if Sole(old(subscriptions.T), k, a) then 1 else 0
      ensures forall k :: k in topics <==> Sole(old(subscriptions.T), k, a)
    {
      hide Canonical, M.MtrieNode.Valid, Sole;
      topics := subscriptions.RmAllSubscriptions(a);
      forall k ensures k in topics <==> Sole(old(subscriptions.T), k, a) {
        assert k in topics <==> multiset(topics)[k] > 0;
      }
    }

    lemma Unlinked(t: Trie, u: Trie, a: Pipe)
      requires Linked(t) && WithoutAll(t, u, a)
      ensures Linked(u) && forall k :: !Has(u, k, a)
    {
    }

    method WriteActivated(a: Pipe)
      requires Valid() && a in peers && peers[a].arrayIndex >= dist.eligible
      modifies dist`active, dist`eligible, dist.pipes, dist.pipes.items`arrayIndex
      ensures Valid()
      ensures forall q :: q in dist.pipes.items <==> q in old(dist.pipes.items)
      ensures forall q :: q in dist.pipes.items ==>
                (q.arrayIndex < dist.matching <==> old(q.arrayIndex) < dist.matching)
                && (q.arrayIndex < dist.active <==> old(q.arrayIndex) < old(dist.active) || (q == peers[a] && !more))
                && (q.arrayIndex < dist.eligible <==> old(q.arrayIndex) < old(dist.eligible) || q == peers[a])
    {
      hide Canonical, Watched, M.MtrieNode.Valid, D.Dist.Logs, D.Dist.Zones, PA.PipeArray.Valid, Told, D.Dist.Valid;
      hide Informed;
      dist.Activated(peers[a]);
    }

    method Receive() returns (ok: bool, m: Message)
      requires Valid()
      modifies this`pending
      ensures Valid() && ok == (old(pending) != [])
      ensures ok ==> old(pending) == [m] + pending
      ensures !ok ==> pending == old(pending)
    {
      hide Canonical, Watched, M.MtrieNode.Valid, D.Dist.Valid, Told, Informed;
      ok, m := pending != [], [];
      if ok {
        m, pending := pending[0], pending[1..];
      }
    }

    // ---------- sending ----------

    // The pipes that were left matching when the last send was refused, or match the message under way.
    ghost function Matching(): (r: set<PA.Pipe>)
      reads dist`matching, dist.pipes, dist.pipes.items`arrayIndex
      ensures forall p :: p in r ==> p in dist.pipes.items
    {
      set p | p in dist.pipes.items && p.arrayIndex < dist.matching
    }

    ghost function Active(): (r: set<PA.Pipe>)
      reads dist`active, dist.pipes, dist.pipes.items`arrayIndex
      ensures forall p :: p in r ==> p in dist.pipes.items
    {
      set p | p in dist.pipes.items && p.arrayIndex < dist.active
    }

    ghost function Eligible(): (r: set<PA.Pipe>)
      reads dist`eligible, dist.pipes, dist.pipes.items`arrayIndex
      ensures forall p :: p in r ==> p in dist.pipes.items
    {
      set p | p in dist.pipes.items && p.arrayIndex < dist.eligible
    }

    // The pipes among them that want the data.
    ghost function Wanting(pipes: set<PA.Pipe>, data: Key): (r: set<PA.Pipe>)
      reads this`peers, subscriptions`T
      ensures r <= pipes
    {
      set p | p in pipes && Wanted(p, data)
    }

    // mark_as_matching.
    method MarkAsMatching(a: Pipe)
      requires Valid() && !more && a in peers
      modifies dist`matching, dist.pipes, dist.pipes.items`arrayIndex
      ensures Valid() && Matching() == old(Matching()) + {peers[a]} * Active()
      ensures Active() == old(Active()) && Eligible() == old(Eligible())
      ensures forall q :: q in dist.pipes.items <==> q in old(dist.pipes.items)
    {
      hide Canonical, Watched, M.MtrieNode.Valid, Informed, D.Dist.Logs;
      dist.Match(peers[a]);
    }

    // For each pipe that match signals.
    method MarkMatching(data: Key)
      requires Valid() && !more
      modifies dist`matching, dist.pipes, dist.pipes.items`arrayIndex
      ensures Valid() && Matching() == old(Matching()) + Wanting(Active(), data)
      ensures Active() == old(Active()) && Eligible() == old(Eligible())
      ensures forall q :: q in dist.pipes.items <==> q in old(dist.pipes.items)
    {
      hide Canonical, Watched, M.MtrieNode.Valid, D.Dist.Valid, Informed, Hits, Wants, Linked;
      hide Matching, Active, Eligible;
      var signalled := subscriptions.MatchPipes(data);
      Signalled(signalled, data);
      ghost var marked: set<PA.Pipe> := {};
      for i := 0 to |signalled|
        invariant Valid() && marked == set j | 0 <= j < i :: peers[signalled[j]]
        invariant forall q :: q in dist.pipes.items <==> q in old(dist.pipes.items)
        invariant Matching() == old(Matching()) + marked * Active()
        invariant Active() == old(Active()) && Eligible() == old(Eligible())
      {
        assert forall j :: 0 <= j < |dist.pipes.items| ==> dist.pipes.items[j] in old(dist.pipes.items);
        MarkAsMatching(signalled[i]);
        marked := marked + {peers[signalled[i]]};
      }
      assert marked * Active() == Wanting(Active(), data);
    }

    // What match signals are the pipes that want the data.
    lemma Signalled(signalled: seq<Pipe>, data: Key)
      requires Linked(subscriptions.T)
      requires forall a :: multiset(signalled)[a] == Hits(subscriptions.T, data, a, |data|)
      ensures forall a :: a in signalled <==> Wants(subscriptions.T, data, a)
      ensures forall j :: 0 <= j < |signalled| ==> signalled[j] in peers
      ensures forall p :: Wanted(p, data) <==> exists j :: 0 <= j < |signalled| && peers[signalled[j]] == p
    {
      forall a ensures a in signalled <==> Wants(subscriptions.T, data, a) {
        HitsIff(subscriptions.T, data, a, |data|);
        assert a in signalled <==> multiset(signalled)[a] > 0;
      }
      forall j | 0 <= j < |signalled| ensures signalled[j] in peers {
        assert signalled[j] in signalled;
      }
    }

    // The pipes that a part goes to: those of the message under way, or, for a first part, those that want
    // it and those left over from a send that was refused.
    ghost function Targets(data: Key): (r: set<PA.Pipe>)
      reads this`more, this`peers, subscriptions`T, dist`matching, dist`active, dist.pipes, dist.pipes.items`arrayIndex
      ensures forall p :: p in r ==> p in dist.pipes.items
    {
      if more then Matching() else Matching() + Wanting(Active(), data)
    }

    // Each of the pipes is tried once and no other is; those that accept have the part.
    twostate predicate Sent(to: set<PA.Pipe>, accepted: set<PA.Pipe>, part: PA.Part)
      requires accepted <= to
      reads dist.pipes, dist.pipes.items
    {
      forall q :: q in old(dist.pipes.items) && q in dist.pipes.items ==>
        && q.Out() == (if q in to then PA.AfterOffer(old(q.Out()), part) else old(q.Out()))
        && (q in accepted <==> q in to && PA.Takes(old(q.Out())))
    }

    // Dist's part of it, in terms of sets of pipes.
    method SendToMatching(msgMore: bool) returns (ghost accepted: set<PA.Pipe>)
      requires dist.Valid() && (dist.more ==> !dist.toAll)
      modifies dist, dist.pipes, dist.pipes.items
      ensures dist.Valid() && dist.more == msgMore && !dist.toAll && dist.attached == old(dist.attached)
      ensures forall q :: q in dist.pipes.items <==> q in old(dist.pipes.items)
      ensures accepted <= old(Matching()) && Matching() == accepted
      ensures Sent(old(Matching()), accepted, PA.Part(old(dist.message), old(dist.sent), msgMore))
      ensures Eligible() == old(Eligible()) - (old(Matching()) - accepted)
      ensures Active() == if msgMore then old(Active()) - (old(Matching()) - accepted) else Eligible()
    {
      hide D.Dist.Logs, D.Dist.Zones, PA.PipeArray.Valid;
      accepted := dist.SendToMatching(msgMore);
    }

    // The message goes to the matching pipes, none of which is matching after its last part.
    method Push(msgMore: bool) returns (ghost accepted: set<PA.Pipe>)
      requires Valid()
      modifies this`more, dist, dist.pipes, dist.pipes.items
      ensures Valid() && more == msgMore && accepted <= old(Matching())
      ensures Matching() == if msgMore then accepted else {}
      ensures forall q :: q in dist.pipes.items <==> q in old(dist.pipes.items)
      ensures Sent(old(Matching()), accepted, PA.Part(old(dist.message), old(dist.sent), msgMore))
      ensures Eligible() == old(Eligible()) - (old(Matching()) - accepted)
      ensures Active() == if msgMore then old(Active()) - (old(Matching()) - accepted) else Eligible()
    {
      hide Canonical, Watched, M.MtrieNode.Valid, Informed, D.Dist.Logs, Sent;
      accepted := SendToMatching(msgMore);
      if !msgMore {
        dist.Unmatch();
      }
      more := msgMore;
    }

    // A first part was offered exactly to the active pipes that want it.
    twostate predicate ToTheWanting(data: Key)
      reads dist.pipes, dist.pipes.items
    {
      forall q :: q in old(dist.pipes.items) && q in dist.pipes.items ==>
        (q.tries == old(q.tries) + 1 <==> q in old(Wanting(Active(), data)))
    }

    twostate lemma ToTheWantingIff(new data: Key, new accepted: set<PA.Pipe>, new part: PA.Part)
      requires !old(more) && accepted <= old(Targets(data)) && Sent(old(Targets(data)), accepted, part)
      requires forall q :: q in dist.pipes.items <==> q in old(dist.pipes.items)
      ensures ToTheWanting(data) <==> old(Matching()) <= old(Wanting(Active(), data))
    {
    }

    // Every matching pipe has room.
    method CheckHwm() returns (ok: bool)
      requires dist.Valid()
      ensures ok <==> forall q :: q in Matching() ==> q.CheckHwm()
    {
      hide D.Dist.Logs, D.Dist.Zones;
      ok := dist.CheckHwm();
    }

    method Xsend(data: Key, msgMore: bool) returns (rc: int, ghost accepted: set<PA.Pipe>)
      requires Valid()
      modifies this`more, dist, dist.pipes, dist.pipes.items
      ensures Valid() && (rc == 0 || rc == -1)
      ensures rc == 0 <==> lossy || forall q :: q in old(Targets(data)) ==> old(q.CheckHwm())
      ensures forall q :: q in dist.pipes.items <==> q in old(dist.pipes.items)
      ensures accepted <= old(Targets(data))
      ensures rc == 0 ==> more == msgMore && Matching() == if msgMore then accepted else {}
      ensures rc == 0 ==> Sent(old(Targets(data)), accepted, PA.Part(old(dist.message), old(dist.sent), msgMore))
      ensures rc == 0 && !old(more) ==> (ToTheWanting(data) <==> old(Matching()) <= old(Wanting(Active(), data)))
      ensures rc == 0 ==>
                Eligible() == old(Eligible()) - (old(Targets(data)) - accepted)
                && Active() == if msgMore then old(Active()) - (old(Targets(data)) - accepted) else Eligible()
      ensures rc == -1 ==>
                more == old(more) && accepted == {} && Matching() == old(Targets(data))
                && Active() == old(Active()) && Eligible() == old(Eligible())
                && dist.message == old(dist.message) && dist.sent == old(dist.sent)
                && forall q :: q in dist.pipes.items ==> q.Out() == old(q.Out())
    {
      hide Canonical, Watched, M.MtrieNode.Valid, D.Dist.Valid, Informed, Linked, Matching, Active, Eligible;
      hide Wanting, PA.Takes, PA.AfterOffer, PA.Pipe.Out, PA.Pipe.CheckHwm;
      hide ToTheWanting;
      if !more {
        MarkMatching(data);
      }
      assert forall j :: 0 <= j < |dist.pipes.items| ==> dist.pipes.items[j] in old(dist.pipes.items);
      rc, accepted := PushIfRoom(msgMore);
      if rc == 0 && !old(more) {
        ToTheWantingIff(data, accepted, PA.Part(old(dist.message), old(dist.sent), msgMore));
      }
    }

    method PushIfRoom(msgMore: bool) returns (rc: int, ghost accepted: set<PA.Pipe>)
      requires Valid()
      modifies this`more, dist, dist.pipes, dist.pipes.items
      ensures Valid() && (rc == 0 || rc == -1) && accepted <= old(Matching())
      ensures rc == 0 <==> lossy || forall q :: q in old(Matching()) ==> old(q.CheckHwm())
      ensures forall q :: q in dist.pipes.items <==> q in old(dist.pipes.items)
      ensures rc == 0 ==> more == msgMore && Matching() == if msgMore then accepted else {}
      ensures rc == 0 ==> Sent(old(Matching()), accepted, PA.Part(old(dist.message), old(dist.sent), msgMore))
      ensures rc == 0 ==>
                Eligible() == old(Eligible()) - (old(Matching()) - accepted)
                && Active() == if msgMore then old(Active()) - (old(Matching()) - accepted) else Eligible()
      ensures rc == -1 ==>
                accepted == {} && unchanged(this) && unchanged(dist) && unchanged(dist.pipes)
                && unchanged(dist.pipes.items)
    {
      hide Valid, Matching, Active, Eligible, PA.Takes, PA.AfterOffer, PA.Pipe.Out, PA.Pipe.CheckHwm, D.Dist.Valid;
      accepted := {};
      rc := -1;
      var room := lossy;
      if !lossy {
        DistValid();
        room := CheckHwm();
      }
      if room {
        accepted := Push(msgMore);
        rc := 0;
      }
    }

    lemma DistValid()
      requires Valid()
      ensures dist.Valid()
    {
      hide Canonical, M.MtrieNode.Valid, Informed, Linked, D.Dist.Valid;
    }

    // The peer of an active pipe has read everything.
    method PeerRead(q: PA.Pipe)
      requires Valid() && q in dist.pipes.items && q.outActive
      modifies q`unread, q`outActive
      ensures Valid() && q.outActive && q.unread == 0 && q.parts == old(q.parts)
    {
      hide Canonical, Watched, M.MtrieNode.Valid, Informed, Linked;
      var activated := q.ProcessActivateWrite(0);
      assert !activated;
    }

    // A pipe without room is to get the message or was left over: it is refused, and the pipe is left over.
    method Refused(data: Key, q: PA.Pipe) returns (rc: int)
      requires Valid() && !more && !lossy && q in Targets(data) && !q.CheckHwm()
      modifies this`more, dist, dist.pipes, dist.pipes.items
      ensures Valid() && rc == -1 && !more && q in Matching() && Active() == old(Active())
      ensures dist.message == old(dist.message) && dist.sent == old(dist.sent)
      ensures forall p :: p in dist.pipes.items <==> p in old(dist.pipes.items)
      ensures forall p :: p in dist.pipes.items ==> p.Out() == old(p.Out())
    {
      hide *;
      ghost var accepted;
      rc, accepted := Xsend(data, false);
    }

    // One pipe has no room: the message that it wants is refused, and so is the next one, which it does
    // not want and all others have room for. When its peer has read, it gets that one.
    method RefusedThenSent(first: Key, second: Key, q: PA.Pipe) returns (refused: int, blocked: int, rc: int)
      requires Valid() && !more && !lossy && q in Active() && Wanted(q, first) && !Wanted(q, second)
      requires q.hwm > 1 && q.outActive && !q.CheckHwm()
      requires forall p :: p in Active() && p != q ==> p.CheckHwm()
      modifies this`more, dist, dist.pipes, dist.pipes.items
      ensures Valid() && refused == blocked == -1 && rc == 0
      ensures q.parts == old(q.parts) + [PA.Part(old(dist.message), old(dist.sent), false)]
    {
      hide Valid, Canonical, Watched, M.MtrieNode.Valid, D.Dist.Valid, Informed, Linked, Wanted, Matching, Active;
      hide PA.AfterOffer, PA.Takes;
      refused := Refused(first, q);
      assert forall j :: 0 <= j < |dist.pipes.items| ==> dist.pipes.items[j] in old(dist.pipes.items);
      ghost var mid := dist.pipes.items;
      blocked := Refused(second, q);
      forall j | 0 <= j < |dist.pipes.items| ensures dist.pipes.items[j] in old(dist.pipes.items) {
        assert dist.pipes.items[j] in dist.pipes.items && dist.pipes.items[j] in mid;
      }
      rc := Unblocked(second, q);
    }

    // The peer of the one pipe without room has read; so the next message is sent, and that pipe gets it too.
    method Unblocked(data: Key, q: PA.Pipe) returns (rc: int)
      requires Valid() && !more && q in Matching() && q.hwm > 1 && q.outActive
      requires forall p :: p in Active() && p != q ==> p.CheckHwm()
      modifies this`more, dist, dist.pipes, dist.pipes.items
      ensures Valid() && rc == 0
      ensures q.parts == old(q.parts) + [PA.Part(old(dist.message), old(dist.sent), false)]
    {
      hide Valid, Canonical, Watched, M.MtrieNode.Valid, D.Dist.Valid, Informed, Linked, Wanted, Matching, Active;
      MatchingActive();
      PeerRead(q);
      ghost var accepted;
      rc, accepted := Xsend(data, false);
    }

    lemma MatchingActive()
      requires Valid()
      ensures Matching() <= Active()
    {
      hide Canonical, M.MtrieNode.Valid, Informed, Linked, D.Dist.Logs;
    }
  }
}

// What an XPUB socket tells its user about the subscriptions it holds.
module XpubModel {
  import opened Common
  import opened MtrieModel
  import opened MtrieTheorem

  type Message = seq<Byte>

  const UNSUBSCRIBE: Byte := 0
  const SUBSCRIBE: Byte := 1

  // Whether the last message about topic k was a subscription.
  predicate Told(messages: seq<Message>, k: Key)
  {
    messages != []
    && var last := messages[|messages| - 1];
    if last == [SUBSCRIBE] + k then true
    else if last == [UNSUBSCRIBE] + k then false
    else Told(messages[..|messages| - 1], k)
  }

  function Unsubscriptions(topics: seq<Key>): (r: seq<Message>)
    ensures |r| == |topics| && forall i :: 0 <= i < |r| ==> r[i] == [0] + topics[i]
  {
    seq(|topics|, i requires 0 <= i < |topics| => [UNSUBSCRIBE] + topics[i])
  }

  // The user knows exactly the topics that somebody is subscribed to. Where pipes were attached for all
  // messages (all), the empty topic may be subscribed to without the user knowing.
  ghost predicate Informed(messages: seq<Message>, t: Trie, all: bool)
  {
    forall k :: (Told(messages, k) ==> Watched(t, k)) && (Watched(t, k) && (k != [] || !all) ==> Told(messages, k))
  }

  // u has the subscriptions of t and one more.
  ghost predicate WithOne(t: Trie, u: Trie, key: Key, p: Pipe)
  {
    forall k, q :: Has(u, k, q) <==> Has(t, k, q) || (k == key && q == p)
  }

  ghost predicate WithoutOne(t: Trie, u: Trie, key: Key, p: Pipe)
  {
    forall k, q :: Has(u, k, q) <==> Has(t, k, q) && !(k == key && q == p)
  }

  ghost predicate WithoutAll(t: Trie, u: Trie, p: Pipe)
  {
    forall k, q :: Has(u, k, q) <==> Has(t, k, q) && q != p
  }

  lemma ToldAppend(messages: seq<Message>, m: Message, k: Key)
    ensures Told(messages + [m], k) <==>
              if m == [SUBSCRIBE] + k then true else if m == [UNSUBSCRIBE] + k then false else Told(messages, k)
  {
    assert (messages + [m])[..|messages|] == messages;
  }

  // One message speaks of one topic.
  lemma OneTopic(b: Byte, k: Key, c: Byte, j: Key)
    ensures [b] + k == [c] + j <==> b == c && k == j
  {
    if [b] + k == [c] + j {
      assert ([b] + k)[0] == b && ([c] + j)[0] == c;
      assert ([b] + k)[1..] == k && ([c] + j)[1..] == j;
    }
  }

  lemma ToldNotice(messages: seq<Message>, b: Byte, topic: Key, k: Key)
    requires b == SUBSCRIBE || b == UNSUBSCRIBE
    ensures Told(messages + [[b] + topic], k) <==> if k == topic then b == SUBSCRIBE else Told(messages, k)
  {
    ToldAppend(messages, [b] + topic, k);
    OneTopic(b, topic, SUBSCRIBE, k);
    OneTopic(b, topic, UNSUBSCRIBE, k);
  }

  lemma {:induction false} ToldUnsubscriptions(messages: seq<Message>, topics: seq<Key>, k: Key)
    ensures Told(messages + Unsubscriptions(topics), k) <==> Told(messages, k) && k !in topics
    decreases |topics|
  {
    if topics == [] {
      assert messages + Unsubscriptions(topics) == messages;
    } else {
      var n := |topics| - 1;
      ToldUnsubscriptions(messages, topics[..n], k);
      ToldNotice(messages + Unsubscriptions(topics[..n]), UNSUBSCRIBE, topics[n], k);
      assert messages + Unsubscriptions(topics)
          == messages + Unsubscriptions(topics[..n]) + [[UNSUBSCRIBE] + topics[n]];
      assert topics == topics[..n] + [topics[n]];
    }
  }

  // A message that is no notice changes nothing.
  lemma ToldOther(messages: seq<Message>, m: Message, k: Key)
    requires m == [] || (m[0] != SUBSCRIBE && m[0] != UNSUBSCRIBE)
    ensures Told(messages + [m], k) <==> Told(messages, k)
  {
    ToldAppend(messages, m, k);
    assert ([SUBSCRIBE] + k)[0] == SUBSCRIBE && ([UNSUBSCRIBE] + k)[0] == UNSUBSCRIBE;
  }

  lemma AddWatched(t: Trie, u: Trie, key: Key, p: Pipe, k: Key)
    requires WithOne(t, u, key, p)
    ensures Watched(u, k) <==> Watched(t, k) || k == key
  {
    if Watched(t, k) { var q :| Has(t, k, q); WatchedBy(u, k, q); }
    if k == key { WatchedBy(u, key, p); }
    if Watched(u, k) && k != key { var q :| Has(u, k, q); WatchedBy(t, k, q); }
  }

  lemma NobodyThere(all: bool)
    ensures Canonical(Fresh) && Informed([], Fresh, all) && forall k, p :: !Has(Fresh, k, p)
  {
    forall k, p ensures !Has(Fresh, k, p) { FreshHas(k, p); }
  }

  // A first subscription must be passed on; others may be.
  lemma AddInformed(messages: seq<Message>, t: Trie, u: Trie, key: Key, p: Pipe, all: bool, told: bool)
    requires Informed(messages, t, all) && WithOne(t, u, key, p) && (!told ==> Watched(t, key))
    ensures Informed(if told then messages + [[SUBSCRIBE] + key] else messages, u, all)
  {
    var after := if told then messages + [[SUBSCRIBE] + key] else messages;
    forall k ensures (Told(after, k) ==> Watched(u, k)) && (Watched(u, k) && (k != [] || !all) ==> Told(after, k)) {
      AddWatched(t, u, key, p, k);
      ToldNotice(messages, SUBSCRIBE, key, k);
    }
  }

  lemma OtherInformed(messages: seq<Message>, m: Message, t: Trie, all: bool)
    requires Informed(messages, t, all) && (m == [] || (m[0] != SUBSCRIBE && m[0] != UNSUBSCRIBE))
    ensures Informed(messages + [m], t, all)
  {
    forall k ensures Told(messages + [m], k) <==> Told(messages, k) { ToldOther(messages, m, k); }
  }

  // A pipe that wants all messages is subscribed to the empty topic, and nobody is told.
  lemma AllInformed(messages: seq<Message>, t: Trie, u: Trie, p: Pipe, all: bool)
    requires Informed(messages, t, all) && WithOne(t, u, [], p)
    ensures Informed(messages, u, true)
  {
    forall k ensures (Told(messages, k) ==> Watched(u, k)) && (Watched(u, k) && k != [] ==> Told(messages, k)) {
      AddWatched(t, u, [], p, k);
    }
  }

  // told is the result of rm: it may be true where nobody was subscribed, but is true whenever the last one goes.
  lemma RemoveInformed(messages: seq<Message>, t: Trie, u: Trie, key: Key, p: Pipe, all: bool, told: bool)
    requires Informed(messages, t, all) && WithoutOne(t, u, key, p)
    requires told ==> !Watched(u, key)
    requires !told ==> !NodeAt(t, key) || Watched(u, key)
    ensures Informed(if told then messages + [[UNSUBSCRIBE] + key] else messages, u, all)
  {
    var after := if told then messages + [[UNSUBSCRIBE] + key] else messages;
    forall k ensures (Told(after, k) ==> Watched(u, k)) && (Watched(u, k) && (k != [] || !all) ==> Told(after, k)) {
      ToldNotice(messages, UNSUBSCRIBE, key, k);
      if Watched(u, k) { var q :| Has(u, k, q); WatchedBy(t, k, q); }
      if Watched(t, k) {
        var q :| Has(t, k, q);
        HasNode(t, k, q);
        if k != key { WatchedBy(u, k, q); }
      }
    }
  }

  lemma RemovePipeInformed(messages: seq<Message>, t: Trie, u: Trie, p: Pipe, all: bool, topics: seq<Key>)
    requires Informed(messages, t, all) && WithoutAll(t, u, p)
    requires forall k :: k in topics <==> Sole(t, k, p)
    ensures Informed(messages + Unsubscriptions(topics), u, all)
  {
    var after := messages + Unsubscriptions(topics);
    forall k ensures (Told(after, k) ==> Watched(u, k)) && (Watched(u, k) && (k != [] || !all) ==> Told(after, k)) {
      ToldUnsubscriptions(messages, topics, k);
      if Watched(u, k) { var q :| Has(u, k, q); WatchedBy(t, k, q); }
      if Watched(t, k) && !Sole(t, k, p) { StillWatched(t, u, p, k); }
    }
  }

  lemma StillWatched(t: Trie, u: Trie, p: Pipe, k: Key)
    requires WithoutAll(t, u, p) && Watched(t, k) && !Sole(t, k, p)
    ensures Watched(u, k)
  {
    var q :| Has(t, k, q) && q != p;
    WatchedBy(u, k, q);
  }

  // ---------- matching ----------

  // The pipe is subscribed to a prefix of the data.
  ghost predicate Wants(t: Trie, data: Key, p: Pipe)
  {
    exists n :: 0 <= n <= |data| && Has(t, data[..n], p)
  }

  lemma {:induction false} HitsIff(t: Trie, data: Key, p: Pipe, n: nat)
    requires n <= |data|
    ensures Hits(t, data, p, n) > 0 <==> exists m :: 0 <= m <= n && Has(t, data[..m], p)
    decreases n
  {
    if n > 0 { HitsIff(t, data, p, n - 1); }
  }
}

// What readers of the whole server see: the write buffer, and a memory cache before the files that no
// write ever invalidates.
module MogModel {
  import opened WriteBufferModel

  // The last accepted value of each key, the keys still in the buffer, what the files hold, and the cache.
  datatype View =
    View(accepted: map<Key, Bytes>, buffered: set<Key>, recorded: map<Key, Bytes>, cached: map<Key, Bytes>)

  const Start := View(map[], {}, map[], map[])

  // A value in the buffer is found unless it is empty: the reader takes length 0 for nothing.
  predicate InBuffer(v: View, k: Key)
  {
    k in v.buffered && k in v.accepted && v.accepted[k] != []
  }

  // What a reader finds behind the buffer: the cache, then the files.
  function Behind(v: View, k: Key): Bytes
  {
    if k in v.cached then v.cached[k] else if k in v.recorded then v.recorded[k] else []
  }

  function Served(v: View, k: Key): Bytes
  {
    if InBuffer(v, k) then v.accepted[k] else Behind(v, k)
  }

  ghost predicate Sane(v: View)
  {
    && v.accepted.Keys == v.buffered + v.recorded.Keys && v.cached.Keys <= v.recorded.Keys
    && forall k :: k in v.accepted && k !in v.buffered ==> v.recorded[k] == v.accepted[k]
  }

  // fits: the cache has room for what the read brings from a file.
  datatype Step = WriteStep(key: Key, value: Bytes) | FlushStep(keys: set<Key>) | ReadStep(key: Key, fits: bool)

  predicate Accepts(v: View, s: Step, k: Key)
  {
    s.WriteStep? && s.key == k && k !in v.buffered
  }

  function Apply(v: View, s: Step): View
  {
    match s
    case WriteStep(k, value) =>
      if k in v.buffered then v else v.(accepted := v.accepted[k := value], buffered := v.buffered + {k})
    case FlushStep(keys) =>
      v.(buffered := v.buffered - keys, recorded := Overlaid(v.recorded, v.accepted, keys * v.buffered))
    case ReadStep(k, fits) =>
      if fits && !InBuffer(v, k) && k in v.recorded && k !in v.cached then v.(cached := v.cached[k := v.recorded[k]])
      else v
  }

  function Run(v: View, steps: seq<Step>): View
    decreases |steps|
  {
    if steps == [] then v else Run(Apply(v, steps[0]), steps[1..])
  }

  // No step of the run is an accepted write of k.
  predicate NotRewritten(v: View, steps: seq<Step>, k: Key)
    decreases |steps|
  {
    steps != [] ==> !Accepts(v, steps[0], k) && NotRewritten(Apply(v, steps[0]), steps[1..], k)
  }

  lemma ApplySane(v: View, s: Step)
    requires Sane(v)
    ensures Sane(Apply(v, s))
  {
  }

  // When a reader gets the last accepted value.
  lemma ServedRightIff(v: View, k: Key)
    requires Sane(v) && k in v.accepted
    ensures Served(v, k) == v.accepted[k] <==>
              if InBuffer(v, k) then true
              else if k in v.cached then v.cached[k] == v.accepted[k]
              else k in v.buffered && k in v.recorded ==> v.recorded[k] == []
  {
  }

  lemma ServedNothing(v: View, k: Key)
    requires Sane(v) && k !in v.accepted
    ensures Served(v, k) == []
  {
  }

  // Nothing behind the buffer can come in the way of the last value.
  predicate Clear(v: View, k: Key, value: Bytes)
  {
    if k in v.cached then v.cached[k] == value else value == [] && k in v.recorded ==> v.recorded[k] == []
  }

  // Until the key is written again its value stays, and so does what is cached for it.
  lemma {:induction false} RunKeeps(v: View, steps: seq<Step>, k: Key)
    requires Sane(v) && k in v.accepted && NotRewritten(v, steps, k)
    ensures Sane(Run(v, steps)) && k in Run(v, steps).accepted && Run(v, steps).accepted[k] == v.accepted[k]
    ensures k in v.cached ==> k in Run(v, steps).cached && Run(v, steps).cached[k] == v.cached[k]
    ensures Clear(v, k, v.accepted[k]) ==> Clear(Run(v, steps), k, v.accepted[k])
    decreases |steps|
  {
    if steps != [] {
      ApplySane(v, steps[0]);
      ApplyKeeps(v, steps[0], k);
      RunKeeps(Apply(v, steps[0]), steps[1..], k);
    }
  }

  lemma ApplyKeeps(v: View, s: Step, k: Key)
    requires Sane(v) && k in v.accepted && !Accepts(v, s, k)
    ensures k in Apply(v, s).accepted && Apply(v, s).accepted[k] == v.accepted[k]
    ensures k in v.cached ==> k in Apply(v, s).cached && Apply(v, s).cached[k] == v.cached[k]
    ensures Clear(v, k, v.accepted[k]) ==> Clear(Apply(v, s), k, v.accepted[k])
  {
  }

  // In every run that does not write the key again readers get its value.
  ghost predicate ReadsStayRight(v: View, k: Key)
    requires k in v.accepted
  {
    forall steps :: NotRewritten(v, steps, k) ==> Served(Run(v, steps), k) == v.accepted[k]
  }

  // An accepted write is read right ever after if and only if nothing else was cached for the key and, for
  // an empty value that is not cached, nothing else was in the files.
  lemma WriteStaysRightIff(v: View, k: Key, value: Bytes)
    requires Sane(v) && k !in v.buffered
    ensures var w := Apply(v, WriteStep(k, value));
            k in w.accepted && (ReadsStayRight(w, k) <==> Clear(v, k, value))
  {
    var w := Apply(v, WriteStep(k, value));
    ApplySane(v, WriteStep(k, value));
    if Clear(v, k, value) {
      forall steps | NotRewritten(w, steps, k) ensures Served(Run(w, steps), k) == value {
        RunKeeps(w, steps, k);
        ServedRightIff(Run(w, steps), k);
      }
    } else if k in v.cached {
      var flush := [FlushStep(w.buffered)];
      RunFirst(w, flush);
      assert NotRewritten(Apply(w, flush[0]), flush[1..], k);
      assert NotRewritten(w, flush, k) && Served(Run(w, flush), k) == v.cached[k];
    } else {
      assert NotRewritten(w, [], k) && Served(Run(w, []), k) == v.recorded[k];
    }
  }

  // Otherwise every reader gets the old value as soon as the new one has left the buffer.
  lemma StaleOnceFlushed(v: View, k: Key, value: Bytes, steps: seq<Step>)
    requires Sane(v) && k !in v.buffered && k in v.cached
    requires NotRewritten(Apply(v, WriteStep(k, value)), steps, k)
    ensures var r := Run(Apply(v, WriteStep(k, value)), steps); k !in r.buffered ==> Served(r, k) == v.cached[k]
  {
    ApplySane(v, WriteStep(k, value));
    RunKeeps(Apply(v, WriteStep(k, value)), steps, k);
  }

  // A value is written, flushed and read, and then another one is written and flushed.
  lemma StaleRun(k: Key, first: Bytes, second: Bytes)
    ensures var steps := [WriteStep(k, first), FlushStep({k}), ReadStep(k, true), WriteStep(k, second), FlushStep({k})];
            var v := Run(Start, steps);
            k in v.accepted && v.accepted[k] == second && Served(v, k) == first
  {
    var a := Apply(Start, WriteStep(k, first));
    var b := Apply(a, FlushStep({k}));
    var c := Apply(b, ReadStep(k, true));
    var d := Apply(c, WriteStep(k, second));
    var e := Apply(d, FlushStep({k}));
    var steps := [WriteStep(k, first), FlushStep({k}), ReadStep(k, true), WriteStep(k, second), FlushStep({k})];
    RunFirst(Start, steps);
    RunFirst(a, steps[1..]);
    RunFirst(b, steps[1..][1..]);
    RunFirst(c, steps[1..][1..][1..]);
    RunFirst(d, steps[1..][1..][1..][1..]);
    assert e.cached[k] == first && e.accepted[k] == second && k !in e.buffered;
  }

  // An empty value is written after another one was flushed: with nothing cached readers get the old one.
  lemma EmptyWriteHidden(k: Key, first: Bytes)
    ensures var v := Run(Start, [WriteStep(k, first), FlushStep({k}), WriteStep(k, [])]);
            k in v.accepted && v.accepted[k] == [] && Served(v, k) == first
  {
    var a := Apply(Start, WriteStep(k, first));
    var b := Apply(a, FlushStep({k}));
    var steps := [WriteStep(k, first), FlushStep({k}), WriteStep(k, [])];
    RunFirst(Start, steps);
    RunFirst(a, steps[1..]);
    RunFirst(b, steps[1..][1..]);
    assert b.recorded[k] == first && k !in b.cached;
  }

  lemma RunFirst(v: View, steps: seq<Step>)
    requires steps != []
    ensures Run(v, steps) == Run(Apply(v, steps[0]), steps[1..])
    ensures |steps| == 1 ==> Run(v, steps) == Apply(v, steps[0])
  {
  }
}

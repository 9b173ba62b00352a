// The events an EventHandler receives, and the trees whose serialisations are the balanced event streams.
module Events {
  import opened NodeGraph

  type Anchor = nat // 0 is NullAnchor

  datatype Event =
    | OnDocumentStart
    | OnDocumentEnd
    | OnNull(anchor: Anchor)
    | OnAlias(anchor: Anchor)
    | OnScalar(tag: string, anchor: Anchor, text: string)
    | OnSequenceStart(tag: string, anchor: Anchor, style: Style)
    | OnSequenceEnd
    | OnMapStart(tag: string, anchor: Anchor, style: Style)
    | OnMapEnd

  // One balanced stretch of events.
  datatype Tree =
    | TNull(anchor: Anchor)
    | TAlias(anchor: Anchor)
    | TScalar(tag: string, anchor: Anchor, text: string)
    | TSequence(tag: string, anchor: Anchor, style: Style, items: seq<Tree>)
    | TMap(tag: string, anchor: Anchor, style: Style, pairs: seq<Pair>)

  datatype Pair = Pair(key: Tree, value: Tree)

  function Flatten(t: Tree): seq<Event>
    decreases t, 0
  {
    match t
    case TNull(a) => [OnNull(a)]
    case TAlias(a) => [OnAlias(a)]
    case TScalar(tag, a, text) => [OnScalar(tag, a, text)]
    case TSequence(tag, a, style, items) => [OnSequenceStart(tag, a, style)] + FlattenAll(items) + [OnSequenceEnd]
    case TMap(tag, a, style, pairs) => [OnMapStart(tag, a, style)] + FlattenPairs(pairs) + [OnMapEnd]
  }

  function FlattenAll(ts: seq<Tree>): seq<Event>
    decreases ts, 0
  {
    if ts == [] then [] else Flatten(ts[0]) + FlattenAll(ts[1..])
  }

  function FlattenPairs(ps: seq<Pair>): seq<Event>
    decreases ps, 0
  {
    if ps == [] then [] else FlattenPair(ps[0]) + FlattenPairs(ps[1..])
  }

  function FlattenPair(p: Pair): seq<Event>
    decreases p, 0
  {
    Flatten(p.key) + Flatten(p.value)
  }

  function Document(t: Tree): seq<Event>
  {
    [OnDocumentStart] + Flatten(t) + [OnDocumentEnd]
  }

  // How many anchors a stretch of events defines.
  function Defined(t: Tree): nat
    decreases t, 0
  {
    match t
    case TAlias(_) => 0
    case TSequence(_, a, _, items) => (if a != 0 then 1 else 0) + DefinedAll(items)
    case TMap(_, a, _, pairs) => (if a != 0 then 1 else 0) + DefinedPairs(pairs)
    case _ => if t.anchor != 0 then 1 else 0
  }

  function DefinedAll(ts: seq<Tree>): nat
    decreases ts, 0
  {
    if ts == [] then 0 else Defined(ts[0]) + DefinedAll(ts[1..])
  }

  function DefinedPairs(ps: seq<Pair>): nat
    decreases ps, 0
  {
    if ps == [] then 0 else DefinedPair(ps[0]) + DefinedPairs(ps[1..])
  }

  function DefinedPair(p: Pair): nat
    decreases p, 0
  {
    Defined(p.key) + Defined(p.value)
  }

  // Anchors are numbered in order from next, and aliases refer to anchors given earlier.
  predicate WellFormed(t: Tree, next: Anchor)
    decreases t, 0
  {
    match t
    case TAlias(a) => 1 <= a < next
    case TSequence(_, a, _, items) =>
      (a == 0 || a == next) && WellFormedAll(items, if a != 0 then next + 1 else next)
    case TMap(_, a, _, pairs) =>
      (a == 0 || a == next) && WellFormedPairs(pairs, if a != 0 then next + 1 else next)
    case _ => t.anchor == 0 || t.anchor == next
  }

  predicate WellFormedAll(ts: seq<Tree>, next: Anchor)
    decreases ts, 0
  {
    ts == [] || (WellFormed(ts[0], next) && WellFormedAll(ts[1..], next + Defined(ts[0])))
  }

  predicate WellFormedPairs(ps: seq<Pair>, next: Anchor)
    decreases ps, 0
  {
    ps == [] || (WellFormedPair(ps[0], next) && WellFormedPairs(ps[1..], next + DefinedPair(ps[0])))
  }

  predicate WellFormedPair(p: Pair, next: Anchor)
    decreases p, 0
  {
    WellFormed(p.key, next) && WellFormed(p.value, next + Defined(p.key))
  }
}

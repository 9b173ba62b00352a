# A verified model of the mog image cache

mog is a tiered image cache: values are collected in a write buffer, packed into block files, indexed,
and read back through memory, GPU and SSD caches. It carries its own copies of yaml-cpp and libzmq. This
project models the parts of the three that are hardest to get right and proves what they promise.
`dafny verify dfyconfig.toml` checks everything.

| files | what they model |
|---|---|
| `NodeGraph`, `Events`, `BuilderModel`, `BuilderTheorem`, `Emission`, `CloneTheorem`, `NodeBuilder`, `NodeEvents` | yaml-cpp `Clone`: a node graph, shared or cyclic, is sent as events with anchors and aliases and rebuilt |
| `MtrieModel`, `MtrieTheorem`, `Mtrie` | libzmq's subscription trie, whose tables grow, shift and compact in place |
| `PipeArray`, `Dist`, `Fq` | libzmq's pipe array and the two schedulers that keep their zones in it by swapping |
| `XpubModel`, `Xpub` | libzmq's publisher: the trie and the distributor together, and what its user is told |
| `Msg` | libzmq messages and the counting of references to shared contents |
| `Slabs`, `WriteBufferModel`, `WriteBuffer` | the write buffer: packing, flushing in any order, reading |
| `Utf8`, `Exp`, `DoubleQuoted`, `ScanScalar`, `ScalarTheorem`, `FoldTheorem` | yaml-cpp's double-quoted strings, written and scanned |
| `MogModel`, `Mog` | the write and read calls of the server: write buffer, memory cache, files |
| `GpuCacheModel`, `GpuCache` | the slab allocator with first-in, first-out eviction |
| `SsdCache` | the cache of block files, as steps of readers and fetches |
| `Base64` | yaml-cpp's base 64 |
| `Common` | notions that several of them share |

Objects that the sources update in place are classes; what their methods do is stated by functions on
values, and the main results are about those functions, over all inputs and all runs. Where the value of
a class is only changed by its methods, the invariant `Valid()` that each of them keeps holds over every
run of them in any order.

## What the proofs found

The code is modelled as it is. Where it falls short of what it says or of what one would expect, the
exact condition is proved.

- `mog::read` asks the memory cache before the index, and no write ever touches that cache; and it takes an empty
  value in the write buffer for no value. When a reader gets the last accepted value is `ServedRightIff`; a write
  is read right until the key is written again, in all runs, if and only if at the write the cache, or for an
  empty value the file behind it, holds nothing else for the key (`WriteStaysRightIff`). `StaleRun` and
  `EmptyWriteHidden` are runs that go wrong.
- `xpub_t::xsend` does not unmatch when it refuses a message, so the next message also goes to the pipes of the
  refused one, or is refused for their sake. It goes to the right pipes if and only if all of these want it too
  (`ToTheWantingIff`, `RefusedThenSent`). With the default, lossy, no message is refused; otherwise one is refused
  if and only if a pipe that it is for fails `check_hwm`, which a pipe with a limit of one always does
  (`Xsend`, `CheckedCanWrite`).
- The user of an XPUB socket is told exactly which topics have subscribers, except for the empty topic where a
  pipe was attached for all messages (`Informed`, `AttachedUntold`).
- `fq_t::pipe_terminated` puts the current index to 0 when it hits the end of the active pipes, also when the
  pipe being read was just moved elsewhere; in the middle of a message the next part is then one of another
  pipe's message (`PipeTerminated`, `MixedUp`).
- `Clone` keeps a map's pairs only if pairs with the same key node have the same value; otherwise the last
  one wins (`CloneKeepsMapIff`, `SharedKeyLost`). Tags of null nodes and styles of scalars and nulls are not part of
  the events, so the copy does not have them.
- `mtrie_t::rm` of a subscription returns true for a topic that nobody is subscribed to, if it is empty or begins
  a subscribed topic, and only then is the result wrong (`DroppedMeansRemovedIff`, `DroppedInTheMiddle`), although
  its header says that true means that the subscription was actually removed. Its assertion fails if and only if
  somebody is subscribed to the topic and this pipe is not (`ErasesIff`, `RunErasesIff`, `OtherPipeFails`).
- `msg_t::rm_refs` should leave a closed message when no reference is left. It does exactly for handles that do
  not share a content; a sharing one keeps its type and its pointer to the freed content (`RmRefs`,
  `RmLastReference`). `msg_t::copy` of a message onto itself closes it; a failed `init_size` leaves the handle
  uninitialised.
- Without `escapeNonAscii` the emitter writes U+007F and U+07FF one byte too long, and a reader gets these
  bytes and not the original ones (`RawRoundTripIff`; `RawComesBackIff` for all byte strings). U+007F, which is
  not printable in YAML, is written as it is (`WrittenRawIff`).
- `ScanScalar` means to throw when the text ends inside a quoted scalar. It does not when the text ends in
  a line break and blanks, or right behind the opening quote (`UnclosedAtBlankEnd`,
  `WithoutQuoteUnclosed`, `PlainWithoutQuoteIff`).
- The escapes `\N` and `\_` yield the single bytes 85 and A0, which are not UTF-8 (`EscapeYieldsUtf8Iff`,
  `LoneBytes`).
- `GpuCache::insert` of a key that is cached leaves the old slabs in the item, so the partition of the
  slabs is lost every time (`OverwriteLost`), and a reader gets the old bytes first (`OverwriteShown`,
  `RoomyShownIff`, `OverwriteRun`).
- `GpuCache::allocate_memory` reads past its table of groups unless the number of slabs is a multiple of 1024
  (`AllInGroupsIff`).
- `DecodeBase64` takes padding anywhere; what it takes and would be written that way is `EncodesBackIff`.
- `SSDCache::read` sorts the recorded blocks by reads and keeps the last candidate, which is the block
  that was read least (`Select`).

## Model

Source cells are paths in the repository.

| member | source | states |
|---|---|---|
| `NodeEvents.NodeEvents.constructor` | depend/yaml-cpp/src/nodeevents.cpp:22-26 | The counts are taken over the whole graph under the root, and none for an invalid root. |
| `NodeEvents.NodeEvents.Setup` | depend/yaml-cpp/src/nodeevents.cpp:28-44 | Ends on every finite graph, shared or cyclic; counts each edge that is walked and expands each node once. |
| `NodeEvents.NodeEvents.CountReference` | depend/yaml-cpp/src/nodeevents.cpp:29-31 | The count is above 1 exactly when the node was met before. |
| `NodeEvents.AliasManager.RegisterReference` | depend/yaml-cpp/src/nodeevents.cpp:10-12 | Anchors are numbered from 1 in the order of registration. |
| `NodeEvents.AliasManager.LookupAnchor` | depend/yaml-cpp/src/nodeevents.cpp:14-20 | A node's anchor is its place in the order of registration; a node that was not registered has none. |
| `Emission.AnchorIsPlace` | depend/yaml-cpp/src/nodeevents.cpp:10-20 | After any run of registrations every registered node finds its place in that order, and every other node finds nothing. |
| `NodeEvents.NodeEvents.AliasedExactly` | depend/yaml-cpp/src/nodeevents.cpp:97-99 | A node is aliased exactly when the walk met it more than once. |
| `NodeEvents.NodeEvents.EmitNode` | depend/yaml-cpp/src/nodeevents.cpp:55-95 | Ends on every finite graph: the handler has received exactly the events of the tree that the walk defines and is in the state that they lead to, and anchors are assigned as the tree says. |
| `NodeEvents.NodeEvents.EmitSequence` | depend/yaml-cpp/src/nodeevents.cpp:76-83 | The events of the items in order, then the end event. |
| `NodeEvents.NodeEvents.EmitMap` | depend/yaml-cpp/src/nodeevents.cpp:84-93 | The events of key then value of each pair in order, then the end event. |
| `NodeEvents.NodeEvents.EmitDocument` | depend/yaml-cpp/src/nodeevents.cpp:46-53 | Exactly the events of one document; only its start and end for an invalid root. |
| `Emission.Revisited` | depend/yaml-cpp/src/nodeevents.cpp:64-71 | A node that is reached again while emitting was counted more than once, so it has an anchor to refer to. |
| `Emission.SplitCount` | depend/yaml-cpp/src/nodeevents.cpp:28-95 | What one part of the walk has met is counted before the rest is walked, so emitting meets every node as often as counting did. |
| `NodeGraph.WalkVisits` | depend/yaml-cpp/src/nodeevents.cpp:28-44 | What a walk newly expands it has counted, and it counts nothing it has not expanded. |
| `BuilderTheorem.FeedTree` | depend/yaml-cpp/src/nodebuilder.cpp:77-131 | From every consistent state a balanced, numbered tree of events is accepted without a failing assertion, and its node arrives once at the collection on top of the stack. |
| `BuilderTheorem.FeedItems` | depend/yaml-cpp/src/nodebuilder.cpp:107-109 | The items of a sequence are appended to that sequence, in order; stack, keys and map depth are restored. |
| `BuilderTheorem.FeedPairs` | depend/yaml-cpp/src/nodebuilder.cpp:109-118 | Each value is inserted into its own map under its own key, with any nesting in between; stack, keys and map depth are restored. |
| `BuilderTheorem.ArriveAsKey` | depend/yaml-cpp/src/nodebuilder.cpp:85-118 | A child that arrives at a map with no pending key becomes the pending key. |
| `BuilderTheorem.ArriveAsValue` | depend/yaml-cpp/src/nodebuilder.cpp:109-118 | A child that arrives at a map with a pending key is inserted under it, and the key is dropped. |
| `BuilderTheorem.DocumentAccepted` | depend/yaml-cpp/src/nodebuilder.cpp:27-131 | Every balanced document is accepted from the start; stack, keys and map depth are empty after it. |
| `BuilderModel.FeedConcat` | depend/yaml-cpp/src/nodebuilder.cpp:27-131 | Feeding two streams of events one after the other is feeding their concatenation, failures included. |
| `NodeBuilder.NodeBuilder.OnScalar` | depend/yaml-cpp/src/nodebuilder.cpp:43-49 | A scalar with its tag, anchor and text arrives; like the handlers below it changes the fields as the step of the model does. |
| `NodeBuilder.NodeBuilder.OnNull` | depend/yaml-cpp/src/nodebuilder.cpp:31-35 | A null node arrives with its anchor and no tag. |
| `NodeBuilder.NodeBuilder.OnAlias` | depend/yaml-cpp/src/nodebuilder.cpp:37-41 | The node of the anchor arrives again. |
| `NodeBuilder.NodeBuilder.OnSequenceStart` | depend/yaml-cpp/src/nodebuilder.cpp:51-58 | A new sequence on the stack. |
| `NodeBuilder.NodeBuilder.OnSequenceEnd` | depend/yaml-cpp/src/nodebuilder.cpp:60 | The sequence arrives at its parent. |
| `NodeBuilder.NodeBuilder.OnMapStart` | depend/yaml-cpp/src/nodebuilder.cpp:62-69 | A new map on the stack, one level deeper. |
| `NodeBuilder.NodeBuilder.OnMapEnd` | depend/yaml-cpp/src/nodebuilder.cpp:71-75 | The map arrives at its parent, one level up. |
| `NodeBuilder.NodeBuilder.PushNode` | depend/yaml-cpp/src/nodebuilder.cpp:85-93 | The node is on the stack, and is a key if the map on top waits for one. |
| `NodeBuilder.NodeBuilder.PopNode` | depend/yaml-cpp/src/nodebuilder.cpp:95-123 | The node leaves the stack for the collection below it or becomes the root. |
| `NodeBuilder.NodeBuilder.RegisterAnchor` | depend/yaml-cpp/src/nodebuilder.cpp:125-130 | Anchors must come in order; the node is found under its anchor. |
| `CloneTheorem.CopyNode` | depend/yaml-cpp/src/nodeevents.cpp:55-95 | Emitting a node and building the events extends a one-to-one map from nodes to copies by exactly the nodes newly expanded, each copied completely. |
| `CloneTheorem.CloneIsIsomorphic` | depend/yaml-cpp/src/node.cpp:6-11 | For every finite graph with any sharing and cycles, the rebuilt nodes are in one-to-one correspondence with the nodes that the root leads to, and each is the image of its original: kind, scalar text, tag and style of scalars and collections as they are emitted, children. |
| `CloneTheorem.MapKeptIffFunctional` | depend/yaml-cpp/src/nodebuilder.cpp:109-118 | Image of a map: every pair is kept if and only if pairs with one and the same key node have the same value. |
| `CloneTheorem.CloneKeepsMapIff` | depend/yaml-cpp/src/nodebuilder.cpp:109-118 | In the clone of any graph exactly the maps in which one key node has one value have all their pairs. |
| `CloneTheorem.EntriesLastWins` | depend/yaml-cpp/src/nodebuilder.cpp:109-118 | Of the pairs with the same key node the last one is kept. |
| `CloneTheorem.SharedKeyLost` | depend/yaml-cpp/src/nodebuilder.cpp:109-118 | The clone of a graph of four nodes whose map has two pairs under one key node: the first value is lost. |
| `NodeEvents.Clone` | depend/yaml-cpp/src/node.cpp:6-11 | Clone returns an isomorphic copy, or no node for an invalid node. |
| `MtrieTheorem.RunRefinesSet` | depend/zeromq-4.1.4/src/mtrie.cpp:72-392 | After any run of add, rm of a subscription and rm of a pipe the trie holds exactly the pairs that the run leaves subscribed. |
| `MtrieTheorem.RunShapeDependsOnSetOnly` | depend/zeromq-4.1.4/src/mtrie.cpp:72-392 | Two runs that leave the same subscriptions leave the same trie, node for node. |
| `MtrieTheorem.ShapeUnique` | depend/zeromq-4.1.4/src/mtrie.cpp:296-392 | Two canonical tries with the same subscriptions are equal. |
| `MtrieTheorem.AddHas` | depend/zeromq-4.1.4/src/mtrie.cpp:77-158 | add makes one pair a member and changes no other, however the table grows or shifts. |
| `MtrieTheorem.AddCanonical` | depend/zeromq-4.1.4/src/mtrie.cpp:77-158 | add keeps the canonical form: live count, single-child form, live table ends, no redundant node. |
| `MtrieTheorem.GrowKeepsChildren` | depend/zeromq-4.1.4/src/mtrie.cpp:90-147 | Growing the table to take in a character keeps every child under its character. |
| `MtrieTheorem.RemoveHas` | depend/zeromq-4.1.4/src/mtrie.cpp:296-392 | rm removes one pair and changes no other. |
| `MtrieTheorem.RemoveCanonical` | depend/zeromq-4.1.4/src/mtrie.cpp:296-392 | rm keeps the canonical form. |
| `MtrieTheorem.TrimKeepsChildren` | depend/zeromq-4.1.4/src/mtrie.cpp:320-387 | Compacting the table keeps every child under its character. |
| `MtrieTheorem.RemovePipeHas` | depend/zeromq-4.1.4/src/mtrie.cpp:169-289 | rm of a pipe removes its subscriptions at every depth and no other. |
| `MtrieTheorem.RemovePipeCanonical` | depend/zeromq-4.1.4/src/mtrie.cpp:169-289 | rm of a pipe keeps the canonical form. |
| `MtrieTheorem.AbandonedExactly` | depend/zeromq-4.1.4/src/mtrie.cpp:174-182 | The callback is invoked once, with the bytes of the topic, for each topic whose only subscriber the pipe was, and for no other topic. |
| `MtrieTheorem.MatchCounts` | depend/zeromq-4.1.4/src/mtrie.cpp:394-435 | match reports a pipe once for each prefix of the data that it is subscribed to. |
| `MtrieTheorem.RunMatches` | depend/zeromq-4.1.4/src/mtrie.cpp:394-435 | After any run, match reports a pipe once for each prefix of the data that the run left it subscribed to. |
| `MtrieTheorem.NewTopicIff` | depend/zeromq-4.1.4/src/mtrie.cpp:81-88 | add returns true exactly when nobody was subscribed to the topic. |
| `MtrieTheorem.DroppedIff` | depend/zeromq-4.1.4/src/mtrie.cpp:299-308 | rm returns true exactly when the topic has a node and no subscriber is left. |
| `MtrieTheorem.DroppedMeansRemovedIff` | depend/zeromq-4.1.4/src/mtrie.cpp:299-308 | The result of rm means that the last subscriber was removed, except when nobody is subscribed to the topic and it is empty or begins a subscribed topic. |
| `MtrieTheorem.DroppedInTheMiddle` | depend/zeromq-4.1.4/src/mtrie.cpp:299-308 | With one subscription to a topic of two bytes, rm of its first byte returns true and that subscription stays. |
| `MtrieTheorem.ErasesIff` | depend/zeromq-4.1.4/src/mtrie.cpp:299-303 | The assertion of rm fails if and only if somebody is subscribed to the topic and this pipe is not. |
| `MtrieTheorem.RunErasesIff` | depend/zeromq-4.1.4/src/mtrie.cpp:299-303 | The same after any run, in terms of what the run left subscribed. |
| `MtrieTheorem.OtherPipeFails` | depend/zeromq-4.1.4/src/mtrie.cpp:299-303 | One pipe subscribes to a topic and another one cancels it: the assertion fails. |
| `MtrieTheorem.DroppedWithoutSubscription` | depend/zeromq-4.1.4/src/mtrie.cpp:299-308 | On an empty trie rm of the empty topic returns true although nothing was subscribed. |
| `Mtrie.MtrieNode.AddHelper` | depend/zeromq-4.1.4/src/mtrie.cpp:77-158 | The recursion over nodes in place leaves the trie that the model computes. |
| `Mtrie.MtrieNode.RmHelper` | depend/zeromq-4.1.4/src/mtrie.cpp:296-392 | As above, for rm of a subscription. |
| `Mtrie.MtrieNode.RmPipe` | depend/zeromq-4.1.4/src/mtrie.cpp:169-289 | As above, for rm of a pipe, with the topics passed to the callback in order and the shared buffer growing as it goes. |
| `Mtrie.MtrieNode.AddSubscription` | depend/zeromq-4.1.4/src/mtrie.cpp:72-75 | add in terms of the set of subscriptions; the result tells whether it is the first for the topic. |
| `Mtrie.MtrieNode.RmSubscription` | depend/zeromq-4.1.4/src/mtrie.cpp:291-294 | rm in terms of the set of subscriptions, whenever its assertion holds. |
| `Mtrie.MtrieNode.RmAllSubscriptions` | depend/zeromq-4.1.4/src/mtrie.cpp:160-167 | rm of a pipe in terms of the set of subscriptions, and one callback for each topic left without subscribers. |
| `Mtrie.MtrieNode.MatchPipes` | depend/zeromq-4.1.4/src/mtrie.cpp:394-435 | The loop over a moving node signals each pipe once for each subscribed prefix. |
| `Mtrie.MtrieNode.IsRedundant` | depend/zeromq-4.1.4/src/mtrie.cpp:437-440 | A node is redundant when it has no pipes and no live children. |
| `PipeArray.PipeArray.PushBack` | depend/zeromq-4.1.4/src/array.hpp:114-119 | The item is last and knows its index. |
| `PipeArray.PipeArray.Erase` | depend/zeromq-4.1.4/src/array.hpp:121-130 | The last item takes the place of the erased one; every item knows its index. |
| `PipeArray.PipeArray.Swap` | depend/zeromq-4.1.4/src/array.hpp:132-139 | Two items change places and every item knows its index. |
| `PipeArray.PipeArray.Index` | depend/zeromq-4.1.4/src/array.hpp:146-149 | The index kept in the item is where it stands. |
| `PipeArray.Pipe.Write` | depend/zeromq-4.1.4/src/pipe.cpp:191-218 | A pipe takes a part exactly if it is active and not full; a full one is not active any more, and the end of a message counts against its limit. |
| `PipeArray.LimitKept` | depend/zeromq-4.1.4/src/pipe.cpp:191-218 | While nothing is read a new pipe takes every part until as many messages have ended as its limit allows, and none after that; with no limit it takes all. |
| `PipeArray.Pipe.CheckedCanWrite` | depend/zeromq-4.1.4/src/pipe.cpp:515-519 | check_hwm is full one message earlier than a write: an active pipe that passes it takes the next part, and with a limit of one no pipe ever passes. |
| `Dist.EarlierPartsWritten` | depend/zeromq-4.1.4/src/dist.cpp:127-142 | A pipe that was written a part of a message was written every earlier part of that message. |
| `Dist.Dist.LogsKept` | depend/zeromq-4.1.4/src/dist.cpp:49-119 | Attaching, terminating and activating pipes in the middle of a message does not let a pipe see a part without the parts before it. |
| `Dist.Dist.PartLogged` | depend/zeromq-4.1.4/src/dist.cpp:127-142 | Neither does sending a part. |
| `Dist.Dist.Attach` | depend/zeromq-4.1.4/src/dist.cpp:49-65 | A new pipe is eligible, and active unless a message is under way; the others keep their zones. |
| `Dist.Dist.Match` | depend/zeromq-4.1.4/src/dist.cpp:67-80 | An eligible pipe becomes matching; the others keep their zones. |
| `Dist.Dist.Unmatch` | depend/zeromq-4.1.4/src/dist.cpp:82-85 | No pipe is matching. |
| `Dist.Dist.PipeTerminated` | depend/zeromq-4.1.4/src/dist.cpp:87-105 | The pipe leaves the array and all zones; the others keep their zones. |
| `Dist.Dist.Activated` | depend/zeromq-4.1.4/src/dist.cpp:107-119 | The pipe is eligible, and active unless a message is under way; the others keep their zones. |
| `Dist.Dist.SendToAll` | depend/zeromq-4.1.4/src/dist.cpp:121-125 | As SendToMatching, for all active pipes. |
| `Dist.Dist.SendToMatching` | depend/zeromq-4.1.4/src/dist.cpp:127-142 | Matching pipes that accept get one copy and stay in their zones, those that refuse are passive, every other pipe is as it was; after the last part the eligible pipes are active. |
| `Dist.Dist.Distribute` | depend/zeromq-4.1.4/src/dist.cpp:144-184 | Ends, having offered the part once to each initially matching pipe and to no other, although a refusal moves another pipe to its position; exactly the pipes that can be written take it, and the failures that are counted, whose references are given back, are the refusals. |
| `Dist.Dist.Write` | depend/zeromq-4.1.4/src/dist.cpp:191-205 | A refusing pipe moves behind all three zones and the others keep theirs. |
| `Dist.Dist.CheckHwm` | depend/zeromq-4.1.4/src/dist.cpp:207-214 | True exactly if every matching pipe has room, hence if none is matching. |
| `Fq.Fq.Attach` | depend/zeromq-4.1.4/src/fq.cpp:48-53 | A new pipe is active, behind the others. |
| `Fq.Fq.PipeTerminated` | depend/zeromq-4.1.4/src/fq.cpp:55-73 | The pipe leaves the array and the active zone; the others keep theirs. In the middle of a message the pipe being read stays the current one if and only if it is another pipe and, should the terminated one be active, it is not the last active one or the terminated one is the first. |
| `Fq.Fq.MixedUp` | depend/zeromq-4.1.4/src/fq.cpp:55-73 | The last active pipe is being read and one between it and the first terminates: the next part is one of the first pipe. |
| `Fq.Fq.Activated` | depend/zeromq-4.1.4/src/fq.cpp:75-80 | The pipe is active; the others keep their zones. |
| `Fq.Fq.RecvPipe` | depend/zeromq-4.1.4/src/fq.cpp:87-131 | Returns the next part of the pipe whose message is under way, or of the next non-empty active pipe; skipped pipes were empty; every ready pipe comes closer in the round. |
| `Fq.Fq.AwaitPipe` | depend/zeromq-4.1.4/src/fq.cpp:87-131 | In a run of recvpipe alone a ready pipe is served after at most active - 1 other messages have ended; what each pipe held before is what it was served, in order, and what it still holds. |
| `Fq.Fq.HasIn` | depend/zeromq-4.1.4/src/fq.cpp:133-155 | True exactly when some active pipe has something to read. |
| `Msg.Messages.InitSize` | depend/zeromq-4.1.4/src/msg.cpp:63-90 | Small messages live in the handle, large ones get a content with this one holder; without memory the handle is not initialised. |
| `Msg.Messages.InitData` | depend/zeromq-4.1.4/src/msg.cpp:92-127 | Data without a deallocation function is constant; other data gets a content with this one holder. |
| `Msg.Messages.InitDelimiter` | depend/zeromq-4.1.4/src/msg.cpp:129-135 | A delimiter holds no content. |
| `Msg.Messages.Init` | depend/zeromq-4.1.4/src/msg.cpp:53-61 | An empty message holds no content. |
| `Msg.Messages.Close` | depend/zeromq-4.1.4/src/msg.cpp:137-171 | The handle gives up its reference; the content is freed exactly when it was the last one. |
| `Msg.Messages.Move` | depend/zeromq-4.1.4/src/msg.cpp:173-192 | The reference changes hands and the source is empty; no counter changes but that of what the target held. |
| `Msg.Messages.Copy` | depend/zeromq-4.1.4/src/msg.cpp:194-225 | Both handles share the content, which is not freed and counts one reference more; copied onto itself a message is closed. |
| `Msg.Messages.AddRefs` | depend/zeromq-4.1.4/src/msg.cpp:335-356 | Room for n bitwise copies: the counter equals holders and copies to come. |
| `Msg.Messages.PodCopy` | depend/zeromq-4.1.4/src/dist.cpp:165-176 | A bitwise copy uses one of those references up, at last the original one. |
| `Msg.Messages.RmRefs` | depend/zeromq-4.1.4/src/msg.cpp:358-388 | Gives references back; the content is freed exactly when none is left, and then the handle is closed exactly if it did not share a content. |
| `Msg.Messages.RmLastReference` | depend/zeromq-4.1.4/src/msg.cpp:358-388 | The last reference of a shared handle is given back: the content is freed and the handle still names it. |
| `Msg.Messages.Fanout` | depend/zeromq-4.1.4/src/dist.cpp:165-184 | Over all pipes, accepting or not, the net change of references is the copies kept, minus the original; the content is freed exactly when nobody kept one. |
| `Msg.Messages.OthersBalanced` | depend/zeromq-4.1.4/src/msg.cpp:137-225 | Contents that an operation does not touch stay balanced, so every live content always has one unshared holder or a counter equal to its shared holders. |
| `Slabs.SlabType` | mog_server/src/WriteBuffer.cpp:69-74 | The smallest class that holds the length. |
| `Slabs.WithinMax` | mog_server/src/WriteBuffer.cpp:15-17 | A length is beyond the largest class exactly when it is over 1 MB. |
| `WriteBuffer.WriteBuffer.Write` | mog_server/src/WriteBuffer.cpp:54-111 | Refused are exactly values over 1 MB and keys still in the buffer, nothing else and no empty value; otherwise the key has the new value, and if the queue had outgrown a block everything but the new entry is in a new block. |
| `WriteBuffer.WriteBuffer.Pack` | mog_server/src/WriteBuffer.cpp:88-107 | The loop never reads an empty queue, never exceeds the block limit, and leaves exactly the entry just written. |
| `WriteBuffer.WriteBuffer.PackFront` | mog_server/src/WriteBuffer.cpp:100-104 | The front entry moves to the block with its slab size. |
| `WriteBufferModel.FrontFits` | mog_server/src/WriteBuffer.cpp:94-105 | The next entry fits into the block exactly while it is not the last one. |
| `WriteBuffer.WriteBuffer.Flush` | mog_server/src/WriteBuffer.cpp:113-148 | In whatever order blocks are flushed: the file holds the values one after the other, each key has a record, the entries leave the buffer, and no reader sees a change. |
| `WriteBuffer.WriteBuffer.WriteBlock` | mog_server/src/WriteBuffer.cpp:131-142 | File, records, store and flushed size after the loop. |
| `WriteBufferModel.RecordedRange` | mog_server/src/WriteBuffer.cpp:131-139 | Each record names exactly the bytes of its own value in the file. |
| `WriteBufferModel.RecordedOther` | mog_server/src/WriteBuffer.cpp:131-139 | Keys outside the block keep their records. |
| `WriteBufferModel.AgreesFlush` | mog_server/src/WriteBuffer.cpp:113-148 | The flush of a block changes no value that is found, buffer first and then file. |
| `WriteBufferModel.StoreSizeErase` | mog_server/src/WriteBuffer.cpp:131-147 | The slab sizes over the store lose exactly the erased entry. |
| `WriteBuffer.WriteBuffer.Sync` | mog_server/src/WriteBuffer.cpp:150-178 | Ends with an empty buffer; every accepted value is in a file under its record. |
| `WriteBuffer.WriteBuffer.ReadBuffer` | mog_server/src/WriteBuffer.cpp:191-203 | The buffered value, nothing if there is none. |
| `WriteBuffer.WriteBuffer.Read` | mog_server/src/WriteBuffer.cpp:191-203 | With no cache in between, the buffer first and then the bytes that the record names give the last accepted value of the key, except exactly for an empty value that is still in the buffer while the file has another one. |
| `Mog.Mog.Write` | mog_server/src/mog.cpp:251-257 | An accepted write gives the key its new value and leaves the memory cache as it is. |
| `Mog.Mog.Read` | mog_server/src/mog.cpp:357-366 | A reader gets the last accepted value exactly if it is in the buffer and not empty, or else is what the memory cache has, or else, with nothing cached, is not an empty value in the buffer that hides nothing of another one in the file. |
| `Mog.Mog.ReadCached` | mog_server/src/CpuCache.cpp:107-134 | A cached value wins over the file; what comes from a file is cached if the slabs suffice. |
| `Mog.Mog.Insert` | mog_server/src/CpuCache.cpp:54-88 | The value is cached exactly if enough slabs are free, and nothing is ever evicted. |
| `MogModel.ServedRightIff` | mog_server/src/mog.cpp:357-366 | When a reader gets the last accepted value, as a condition on buffer, cache and files. |
| `MogModel.WriteStaysRightIff` | mog_server/src/mog.cpp:251-257 | After an accepted write all reads in all runs that do not write the key again are right if and only if, at the write, this very value was cached for the key, or nothing was and, for an empty value, nothing but an empty value was in the files. |
| `MogModel.StaleOnceFlushed` | mog_server/src/CpuCache.cpp:107-134 | Otherwise every read from the flush on gets what was cached at the write, until the key is written again. |
| `MogModel.StaleRun` | mog_server/src/mog.cpp:357-366 | Write, flush, read, write, flush: the reader gets the first value. |
| `MogModel.EmptyWriteHidden` | mog_server/src/mog.cpp:357-366 | Write, flush, write an empty value: the reader gets the first value. |
| `Utf8.GetNextCodePointAndAdvance` | depend/yaml-cpp/src/emitterutils.cpp:89-132 | The next code point and where reading goes on, for every byte string. |
| `Utf8.DecodeLegal` | depend/yaml-cpp/src/emitterutils.cpp:122-131 | Whatever the bytes, no surrogate, noncharacter or out-of-range code point comes out. |
| `Utf8.NextEncode` | depend/yaml-cpp/src/emitterutils.cpp:89-132 | The shortest form (section 3 of RFC 3629) of a legal code point is read back wherever it stands. |
| `Utf8.DecodeEncoded` | depend/yaml-cpp/src/emitterutils.cpp:89-132 | Decoding undoes encoding for all sequences of legal code points. |
| `Utf8.WellFormedIff` | depend/yaml-cpp/src/emitterutils.cpp:89-132 | Decoding loses nothing exactly on well-formed strings without noncharacters. |
| `Utf8.WrittenIsShortestIff` | depend/yaml-cpp/src/emitterutils.cpp:134-154 | The writer emits the shortest form for every legal code point but U+007F and U+07FF. |
| `Utf8.WrittenElse` | depend/yaml-cpp/src/emitterutils.cpp:134-154 | For all other numbers: U+FFFF comes out too long as well, and what is no code point as U+FFFD. |
| `Utf8.EncodeForm` | depend/yaml-cpp/src/exp.cpp:55-65 | The shortest form has the length and the bits of section 3 of RFC 3629. |
| `Utf8.LegalIff` | depend/yaml-cpp/src/emitterutils.cpp:122-131 | Kept are the Unicode scalar values that are not one of the 66 noncharacters. |
| `Utf8.NextStray` | depend/yaml-cpp/src/emitterutils.cpp:95-101 | A trailing byte that nothing announced reads as U+FFFD. |
| `Utf8.NextTruncated` | depend/yaml-cpp/src/emitterutils.cpp:108-119 | A sequence that breaks off reads as U+FFFD, and reading goes on behind what is there of it. |
| `Utf8.NextWhole` | depend/yaml-cpp/src/emitterutils.cpp:122-131 | A whole sequence, overlong or not, reads as the number of its bits, or as U+FFFD if that is no legal code point. |
| `DoubleQuoted.WriteCodePoint` | depend/yaml-cpp/src/emitterutils.cpp:134-154 | Appends the bytes that the model writes. |
| `DoubleQuoted.WriteDoubleQuoteEscapeSequence` | depend/yaml-cpp/src/emitterutils.cpp:228-247 | Appends the escape sequence, digits from the highest down. |
| `DoubleQuoted.HexValueDigits` | depend/yaml-cpp/src/exp.cpp:13-32 | Reading the hexadecimal digits of a number that fits gives the number. |
| `DoubleQuoted.HexValueUpper` | depend/yaml-cpp/src/exp.cpp:13-31 | So does reading them in upper case. |
| `DoubleQuoted.HexDigitIs` | depend/yaml-cpp/src/emitterutils.cpp:229 | Written are lower-case digits. |
| `DoubleQuoted.SequenceIs` | depend/yaml-cpp/src/emitterutils.cpp:228-247 | Two digits up to FE, four up to FFFE, eight above. |
| `DoubleQuoted.EscapeReadsBack` | depend/yaml-cpp/src/exp.cpp:39-66 | Reading the escape sequence of any legal code point gives its shortest form. |
| `DoubleQuoted.WriteDoubleQuotedString` | depend/yaml-cpp/src/emitterutils.cpp:312-354 | Appends the tokens of all code points of the string between quotes. |
| `DoubleQuoted.ShortTokens` | depend/yaml-cpp/src/emitterutils.cpp:319-336 | The six code points that have short escapes. |
| `DoubleQuoted.WrittenRawIff` | depend/yaml-cpp/src/emitterutils.cpp:337-349 | Without escapeNonAscii written as they are: the printable code points of section 5.1 of YAML 1.2 but eight, and U+007F. |
| `DoubleQuoted.WrittenAsciiIff` | depend/yaml-cpp/src/emitterutils.cpp:337-349 | With it only printable ASCII but the quote and the backslash. |
| `DoubleQuoted.AsciiOnly` | depend/yaml-cpp/src/emitterutils.cpp:312-354 | With it the whole text is printable ASCII. |
| `Exp.ParseHex` | depend/yaml-cpp/src/exp.cpp:13-32 | The value of up to eight digits with no wrap-around, or a failure. |
| `Exp.HexDigitIff` | depend/yaml-cpp/src/exp.cpp:18-25 | The sixteen digits in both cases have their values, and no other character has one. |
| `Exp.HexValueAnyCase` | depend/yaml-cpp/src/exp.cpp:13-31 | The case of hexadecimal digits does not matter. |
| `Exp.EscapeHex` | depend/yaml-cpp/src/exp.cpp:41-66 | The UTF-8 of the digits; surrogates and values beyond Unicode are refused. |
| `Exp.UnicodeIff` | depend/yaml-cpp/src/exp.cpp:48-66 | A number is accepted exactly if it is a Unicode scalar value, and gives its UTF-8. |
| `Exp.Escape` | depend/yaml-cpp/src/exp.cpp:74-135 | All escapes behind a backslash or a single quote, and failure for any other. |
| `Exp.SimpleIs` | depend/yaml-cpp/src/exp.cpp:86-123 | Each one-character escape of section 5.7 of YAML 1.2 reads as the UTF-8 of its code point, but N and the underscore as a byte. |
| `Exp.SimpleOnly` | depend/yaml-cpp/src/exp.cpp:86-134 | No other character is a one-character escape. |
| `Exp.CodeLengthIs` | depend/yaml-cpp/src/exp.cpp:124-129 | x, u and U take two, four and eight digits. |
| `Exp.EscapeYieldsUtf8Iff` | depend/yaml-cpp/src/exp.cpp:74-135 | An escape yields the UTF-8 of one code point, except that \N and \_ yield lone bytes. |
| `Exp.LoneBytes` | depend/yaml-cpp/src/exp.cpp:116-119 | \N reads as the byte 85 and \_ as the byte A0, which are no encoding of any code point. |
| `Exp.Stream.Get` | depend/yaml-cpp/src/stream.cpp:264-275 | One byte, with the column; the end mark past the end. |
| `ScanScalar.ReadLine` | depend/yaml-cpp/src/scanscalar.cpp:38-86 | A line up to the quote, a break or the end. |
| `ScanScalar.EatBreak` | depend/yaml-cpp/src/scanscalar.cpp:107-148 | The break and the blanks after it. |
| `ScanScalar.ScanScalar` | depend/yaml-cpp/src/scanscalar.cpp:21-249 | The value and the position after it, or the failure, as the model scans. |
| `ScanScalar.ScanQuotedScalar` | depend/yaml-cpp/src/scantoken.cpp:331-368 | The scanner in its double-quoted configuration. |
| `ScalarTheorem.EmittedScans` | depend/yaml-cpp/src/scanscalar.cpp:21-249 | Every emitted string, with whatever follows, is scanned up to its closing quote, and trailing escaped newlines survive the chomping. |
| `ScalarTheorem.ClipKeeps` | depend/yaml-cpp/src/scanscalar.cpp:216-229 | Chomping keeps a scalar whose newlines were all escaped. |
| `ScalarTheorem.RoundTripIff` | depend/yaml-cpp/src/emitterutils.cpp:312-354 | With escapeNonAscii a byte string comes back if and only if it is well-formed UTF-8 without noncharacters. |
| `ScalarTheorem.RawRoundTripIff` | depend/yaml-cpp/src/emitterutils.cpp:134-154 | Without it a well-formed string comes back if and only if it has neither U+007F nor U+07FF. |
| `ScalarTheorem.DeleteComesBackTooLong` | depend/yaml-cpp/src/emitterutils.cpp:138-142 | U+007F comes back as two bytes. |
| `ScalarTheorem.RawComesBackIff` | depend/yaml-cpp/src/emitterutils.cpp:134-154 | The same for every byte string: it comes back if and only if it is in the form that the writer uses, with these two code points one byte too long. |
| `ScalarTheorem.OverlongDeleteComesBack` | depend/yaml-cpp/src/emitterutils.cpp:138-142 | C1 BF, which is not well formed, comes back. |
| `ScalarTheorem.UnclosedAtBlankEnd` | depend/yaml-cpp/src/scanscalar.cpp:36-92 | When the text runs out with no closing quote the scan fails if and only if the text does not end in a line break and blanks. |
| `ScalarTheorem.WithoutQuoteUnclosed` | depend/yaml-cpp/src/scanscalar.cpp:36-92 | A text without any closing quote is never closed; it is accepted only if it ends in a break and blanks, and if it does the missing end is never what is wrong. |
| `ScalarTheorem.PlainWithoutQuoteIff` | depend/yaml-cpp/src/scanscalar.cpp:36-92 | A text without quote, escape or document indicator is accepted if and only if it ends in a break and blanks. |
| `ScalarTheorem.UnclosedAccepted` | depend/yaml-cpp/src/scanscalar.cpp:36-92 | A lone opening quote is an empty scalar, not an error. |
| `FoldTheorem.LineFolds` | depend/yaml-cpp/src/scanscalar.cpp:97-197 | Between words, blanks around breaks of either form go, one break reads as a space and n + 1 breaks as n newlines (section 6.5 of YAML 1.2). |
| `FoldTheorem.EscapedLineFolds` | depend/yaml-cpp/src/scanscalar.cpp:58-66 | With a slash before the first break the blanks before it stay and no space is put in; n + 1 breaks read as n newlines. |
| `FoldTheorem.EscapedBreakJoins` | depend/yaml-cpp/src/scanscalar.cpp:186-189 | Two words with an escaped break between them are joined. |
| `FoldTheorem.EmptyLines` | depend/yaml-cpp/src/scanscalar.cpp:186-197 | Each empty line reads as one newline. |
| `FoldTheorem.DocIndicatorIff` | depend/yaml-cpp/src/exp.h:84-95 | A document indicator is three dashes or dots, and then a blank, a break or the end. |
| `FoldTheorem.DocIndicatorFails` | depend/yaml-cpp/src/scanscalar.cpp:46-53 | At the beginning of a line it makes the scan fail. |
| `FoldTheorem.ClipIs` | depend/yaml-cpp/src/scanscalar.cpp:218-230 | Of the newlines at the end one stays; behind an escape, up to two more than were escaped. |
| `GpuCache.GpuCache.AllocateMemory` | mog_gpu/GpuCache.cpp:49-65 | All slabs are free, and every slab that has a group has its address in it. |
| `GpuCacheModel.SlabsApart` | mog_gpu/GpuCache.cpp:56-63 | Slabs with a group lie within it, and no two overlap if the groups do not. |
| `GpuCacheModel.AllInGroupsIff` | mog_gpu/GpuCache.cpp:56-63 | All slabs have a group if and only if their number is a multiple of 1024. |
| `GpuCache.GpuCache.Insert` | mog_gpu/GpuCache.cpp:69-127 | Refused are exactly values over 1 MB. For a fresh key free slabs and slab lists still partition the ids, the cached keys are a suffix of the order of insertion, the other items kept are as they were, and no eviction was without need. For a cached key the partition is lost, and what a reader gets is the old slabs and then the new ones, stated byte for byte. |
| `GpuCacheModel.OverwriteShown` | mog_gpu/GpuCache.cpp:77-121 | What the item holds after an overwrite, as a function of what it held, of the number of free slabs and of the new value: old slabs are written anew exactly as far as the new value reaches into them. |
| `GpuCacheModel.HoldingOthers` | mog_gpu/GpuCache.cpp:112-120 | An overwrite changes no other cached value. |
| `GpuCacheModel.RoomyShownIff` | mog_gpu/GpuCache.cpp:137-149 | With enough free slabs the reader of an overwritten key is right if and only if the new value agrees with the old contents followed by the new value. |
| `GpuCacheModel.FullShown` | mog_gpu/GpuCache.cpp:137-149 | With no free slab, and a new value that takes no more slabs than the old one, the reader is right. |
| `GpuCache.OverwriteRun` | mog_gpu/GpuCache.cpp:67-127 | In an empty cache a value of 1 KB is inserted and overwritten: the reader gets the first one. |
| `GpuCache.GpuCache.MakeRoom` | mog_gpu/GpuCache.cpp:88-108 | The loop never pops an empty queue and stops as soon as there are enough free slabs. |
| `GpuCache.GpuCache.Allocate` | mog_gpu/GpuCache.cpp:109-121 | The slabs come from the front of the free queue and hold the value piece by piece. |
| `GpuCache.GpuCache.Free` | mog_gpu/GpuCache.cpp:77-86 | The slabs of the item are free. |
| `GpuCache.GpuCache.Read` | mog_gpu/GpuCache.cpp:137-153 | The slabs of the item in order; as long as no key was overwritten, the first length bytes are the value that was inserted. |
| `GpuCacheModel.Parts` | mog_gpu/GpuCache.cpp:69-127 | A partition has no slab twice, and no slab both free and in use. |
| `GpuCacheModel.QueueNotEmpty` | mog_gpu/GpuCache.cpp:88-95 | As long as slabs are missing there is an item to evict. |
| `GpuCacheModel.EvictFront` | mog_gpu/GpuCache.cpp:89-104 | Eviction keeps the partition. |
| `GpuCacheModel.FreshQueued` | mog_gpu/GpuCache.cpp:109-124 | So does the insertion of a fresh key. |
| `GpuCacheModel.OverwriteLost` | mog_gpu/GpuCache.cpp:77-121 | An overwrite never does: the old slabs stay in the item. |
| `GpuCacheModel.HoldingInsert` | mog_gpu/GpuCache.cpp:112-120 | Filling free slabs changes no cached value. |
| `SsdCache.SsdCache.Read` | mog_server/src/SSDCache.cpp:142-205 | Every reader gets the bytes of the hard disk file; the 51st read starts the selection and clears the counts. |
| `SsdCache.SsdCache.Select` | mog_server/src/SSDCache.cpp:155-168 | Of the recorded blocks that are not cached, the one that was read least is selected, the highest number among equals. |
| `SsdCache.PreferredOne` | mog_server/src/SSDCache.cpp:156-166 | Of two blocks the one that was read less is preferred, of two read equally often the one with the higher number. |
| `SsdCache.SsdCache.Buckets` | mog_server/src/SSDCache.cpp:156-159 | The recorded blocks by number of reads, in ascending order. |
| `SsdCache.SsdCache.ScheduleFetch` | mog_server/src/SSDCache.cpp:169-181 | The selected block is marked as on its way unless it was already. |
| `SsdCache.SsdCache.BeginFetch` | mog_server/src/SSDCache.cpp:64-69 | The cache is never full when a fetch begins, however many are in flight, and no file is overwritten. |
| `SsdCache.SsdCache.CommitFetch` | mog_server/src/SSDCache.cpp:70-98 | The count equals the length of the duplicate-free list, stays below the maximum, and after cleaning is just below 7 tenths of it; blocks go in the order they came. |
| `SsdCache.SsdCache.CleanUp` | mog_server/src/SSDCache.cpp:78-96 | The eviction loop. |
| `Base64.EncodeBase64` | depend/yaml-cpp/src/binary.cpp:7-44 | The encoding of section 4 of RFC 4648, never written past the buffer. |
| `Base64.EncodedLength` | depend/yaml-cpp/src/binary.cpp:10-12 | Four characters for each three bytes begun, which the buffer always holds. |
| `Base64.EncodingIs` | depend/yaml-cpp/src/binary.cpp:4-5 | The alphabet of table 1 of RFC 4648. |
| `Base64.EncodedAt` | depend/yaml-cpp/src/binary.cpp:17-39 | Every character of the encoding is that of the alphabet at six bits of the data, in order, or padding where there are none. |
| `Base64.DecodingIs` | depend/yaml-cpp/src/binary.cpp:45-64 | Each character of the alphabet decodes to its place in it. |
| `Base64.DecodingFails` | depend/yaml-cpp/src/binary.cpp:45-64 | No other character but the padding decodes. |
| `Base64.DecodeBase64` | depend/yaml-cpp/src/binary.cpp:66-92 | Complete quadruples of alphabet characters are decoded, anything else gives nothing; the wrapping accumulator does not matter and nothing is written past the buffer. |
| `Base64.Accumulate` | depend/yaml-cpp/src/binary.cpp:80 | The accumulator's low bits are those of the present quadruple, whatever came before. |
| `Base64.QuadChunk` | depend/yaml-cpp/src/binary.cpp:66-92 | Reading back four characters gives their three, two or one bytes. |
| `Base64.RoundTrip` | depend/yaml-cpp/src/binary.cpp:66-92 | Decoding undoes encoding on every byte sequence. |
| `Base64.EncodesBackIff` | depend/yaml-cpp/src/binary.cpp:66-92 | Encoding undoes decoding exactly on the texts of whole quadruples of letters that end in at most two padding characters, with zero bits in front of them. |
| `Base64.PaddingDecodes` | depend/yaml-cpp/src/binary.cpp:66-92 | Four padding characters decode to a byte, whose encoding is another text. |
| `Xpub.Xpub.Xsend` | depend/zeromq-4.1.4/src/xpub.cpp:136-159 | Sends exactly if the socket is lossy or every pipe that the part is for has room, so also if it is for nobody. A first part is offered once to each pipe left matching and to each active pipe subscribed to a prefix of it, a later part to the pipes that have accepted the parts before; those that can be written have it, the others are passive; after the last part no pipe is matching and the eligible ones are active. A refused part is offered to nobody and leaves its pipes matching. |
| `Xpub.Xpub.ToTheWantingIff` | depend/zeromq-4.1.4/src/xpub.cpp:136-159 | A message is offered exactly to the active pipes subscribed to a prefix of it if and only if every pipe left matching by a refused send is subscribed to one. |
| `Xpub.Xpub.RefusedThenSent` | depend/zeromq-4.1.4/src/xpub.cpp:145-158 | A pipe without room: the message that it wants is refused, so is the next one, which it does not want, and when it has room it gets that one. |
| `Xpub.Xpub.MarkMatching` | depend/zeromq-4.1.4/src/xpub.cpp:130-143 | Matching are then those that were, and the active pipes subscribed to a prefix of the data. |
| `Xpub.Xpub.ReadActivated` | depend/zeromq-4.1.4/src/xpub.cpp:65-94 | Adds or removes one subscription. Passed on to the user, behind what is pending, are exactly: first subscriptions, every subscription if verbose, unsubscriptions that leave a node without subscribers, and whatever is neither. |
| `Xpub.Xpub.AttachPipe` | depend/zeromq-4.1.4/src/xpub.cpp:50-63 | The pipe can be sent to, at once unless a message is under way, and the others keep their zones; a pipe for all messages is subscribed to the empty topic, untold. |
| `Xpub.Xpub.AttachedUntold` | depend/zeromq-4.1.4/src/xpub.cpp:55-58 | A first subscription to the empty topic of which the user is not told. |
| `Xpub.Xpub.PipeTerminated` | depend/zeromq-4.1.4/src/xpub.cpp:120-128 | All subscriptions of the pipe go, the user is sent one unsubscription for each topic left without subscribers and nothing else, and the pipe leaves the distributor, where the others keep their zones. |
| `Xpub.Xpub.WriteActivated` | depend/zeromq-4.1.4/src/xpub.cpp:96-99 | The pipe can be sent to again, at once unless a message is under way; no pipe becomes matching. |
| `Xpub.Xpub.Receive` | depend/zeromq-4.1.4/src/xpub.cpp:166-185 | The user gets what is pending in order, the oldest first. |
| `XpubModel.AddInformed` | depend/zeromq-4.1.4/src/xpub.cpp:76-84 | If first subscriptions are passed on, the topics that the user was told of stay those that somebody is subscribed to, for a verbose socket as well. |
| `XpubModel.RemoveInformed` | depend/zeromq-4.1.4/src/xpub.cpp:75-84 | So they do with the result of rm, even where that is true with nothing removed. |
| `XpubModel.RemovePipeInformed` | depend/zeromq-4.1.4/src/xpub.cpp:192-207 | And when a pipe goes, with one message for each topic whose only subscriber it was. |
| `XpubModel.AllInformed` | depend/zeromq-4.1.4/src/xpub.cpp:55-58 | Attaching for all messages leaves the user informed of every topic but the empty one. |

## Left out

- Threads and locks: each section under a lock is one atomic step, and the proofs are over all orders of steps; the waiting loops are not modelled.
- Files, leveldb, CUDA and the network: files are byte strings, the index and the file system are maps, GPU memory is an array of slabs; their errors are not modelled.
- WriteBuffer.WriteBuffer.Write: does not wait while the buffer or the SSD cache is full, and assumes that the hash is injective on the keys in use and at least one page per block. For length 0 it takes the class computed from the logarithm, minus infinity, to be negative and hence the smallest class; the language leaves that conversion undefined.
- WriteBuffer.WriteBuffer.Read: leaves out the memory cache, which Mog.Mog.Read has between buffer and files.
- Mog.Mog.Read: is one step; that a key may be written between the look into the buffer and the one into the cache, and that two readers may insert the same key at once, is not modelled.
- Mog.Mog.Insert: keeps cached values and a count of free slabs, not the lists of slabs, whose allocator is that of GpuCache; the replacement loop behind the early return is unreachable.
- Slabs.SlabType: takes the place of the floating-point logarithms and powers; 0.7 of the maximum is compared as 10 to 7.
- GpuCache.GpuCache.Insert: is described for calls before the first overwrite and for that overwrite itself, not for what later calls do with slabs that are in use twice; assumes at least 1024 slabs and a value buffer that holds the whole slabs that are copied. Length 0 is taken as in WriteBuffer.
- GpuCache.GpuCache.AllocateMemory: keeps the contents of slabs by id, not by address; a slab without a group has any address.
- GpuCache.GpuCache.Read: like the source copies whole slabs; what lies behind the value's length is not described.
- SsdCache.SsdCache.BeginFetch: does not model new_block and flush from SSD to disk, whose only call in WriteBuffer is commented out.
- Mtrie.MtrieNode.RmSubscription: is about calls whose assertion holds; when it fails is MtrieTheorem.ErasesIff, and the program then ends.
- MtrieNode: the destructor, the memory for tables and the single-child form as a pointer without a table are not modelled; a table of one entry stands for it. Pipe sets are ordered sets in the source and sets here.
- Dist.Dist.Match and Dist.Dist.Unmatch: are called between whole messages only, as its users do; one message uses one of the two send calls throughout.
- Dist and Fq: a pipe is a log of parts out, with its limit, the number of unread messages and whether it is active, and a queue of parts in; delimiters, credentials, identities and pipe termination handshakes are not modelled. Each pipe has one array index for the one array it is in.
- Fq.Fq.RecvPipe: needs what its assertion needs, that in the middle of a message the current pipe has the next part; Fq.Fq.PipeTerminated says when that may be lost. A pipe shows whole messages only.
- Xpub.Xpub.ReadActivated: is one round of the loop over what the pipe holds, and for an unsubscription needs what the assertion in rm needs; messages from the user upstream have no flags.
- Xpub.Xpub.AttachPipe: the messages that the pipe already holds are read by ReadActivated afterwards.
- Xpub: is of type XPUB, not PUB, which keeps no messages for its user; options are set at construction.
- Msg: metadata and its counter, flags other than shared, file descriptors and identities are not modelled; counters do not wrap at 32 bits; threads do not race on them.
- Msg.Messages.Fanout: covers messages with contents, constant messages and delimiters; small messages are copied whole and have no counter.
- NodeEvents.Clone: graphs hold no Undefined node; a node stands for its reference and data, which several nodes may share in the source; marks, and the memory holder that keeps nodes alive, are not modelled.
- Events: styles and tags are those that the events carry; scalars are plain strings.
- ScanScalar.ScanScalar: is modelled for double quotes only (fold flow, clip, indentation 0); single quotes, plain and block scalars are not. The stream holds no byte 4, which the stream class itself uses as its end mark; character sets other than UTF-8 are not modelled.
- FoldTheorem.LineFolds and FoldTheorem.EscapedLineFolds: are about words and blanks; lines with escapes in the words are covered by the model of the scanner and by the round trip.
- Emitter formatting, choice of string format, aliases, tags and literals: large and not needed here.
- Base64.DecodeBase64: takes characters below 128; others index outside the table where char is signed.
- Servers, clients, image loading, CURVE, GSSAPI, ZAP, pollers and listeners: request plumbing and external libraries.

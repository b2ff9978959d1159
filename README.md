# gleam_todo core, modelled in Dafny

The application is a TODO list written in Gleam with the Lustre front-end framework and
compiled into one JavaScript bundle, `priv/static/todo_mvc.mjs`. This project models the
parts of that bundle that decide what the page and the data end up holding:

- **Lustre's reconciler** brings the live DOM in line with a new virtual tree.
  - `morph` works through a list of (previous node, vnode, parent) items. Each text,
    element or fragment vnode either reuses, replaces or appends a node.
  - `createElementNode` picks an element to work on: the previous one when it can be
    morphed, a fresh one otherwise. It then runs the attribute phase (properties,
    `on…` handlers, server events, `class`, `style`, raw HTML, plain attributes, and
    stripping what is no longer declared). Last it runs the child phase, which pairs
    children by position or by `data-lustre-key`.
  - `diffKeyedChild`, `getKeyedChildren` and `iterateElement` do the keyed child work.
  - `lustreGenericEventHandler` delivers an event to its registered callback.
  - The vnode constructors and `element` build the virtual tree.
- **Gleam's `Dict`** is a hash array mapped trie (HAMT). It has index, array and collision
  nodes, copy-on-write array helpers, a SWAR population count, and `get`, `has`, `set`
  and `delete` on top.
- **Gleam's cons list** covers `fromArray`, `toArray`, the length tests, and the
  `gleam/list` loops `reverse`, `map`, `reverse_and_prepend` and `concat`.
- **The application's `init` and `update`.**

The page is a value, `Dom.Page`. It holds:

- a heap of node records addressed by identity;
- the reconciler's handler registry;
- the listeners attached to each element;
- a multiset of the DOM calls made.

Each DOM call is a function on `Page`. The class `Dom.Document` performs the same calls in
place. The reconciler is written twice, and the two halves are proved to agree:

- as functions of the page: `Reconciler`, `Element`, `Attributes` and `Children`;
- as methods with loops on a `Document`: `Morph` and `Render`.

What is proved about the functions therefore holds of the loops. The trie is a
`datatype`, and every operation is proved against `Elements`, the map a node holds. The
copying loops of the trie and of the list library are methods proved equal to the
functions the trie uses. The hash function (`getHash`) is the parameter `h`.

## Model

All source paths are in `priv/static/todo_mvc.mjs`.

| member | source | states |
|---|---|---|
| GleamList.FromArray | priv/static/todo_mvc.mjs:11-17 | the list holds the array's elements followed by those of `tail`, or exactly the array's elements when no tail is given |
| GleamList.ToArray | priv/static/todo_mvc.mjs:18-23 | the array holds the list's elements front to back, as its iterator yields them |
| GleamList.AtLeastLength | priv/static/todo_mvc.mjs:25-32 | true exactly when the list has at least `desired` elements, including every non-positive `desired` |
| GleamList.HasLength | priv/static/todo_mvc.mjs:34-41 | true exactly when the list has exactly `desired` elements |
| GleamList.CountLength | priv/static/todo_mvc.mjs:42-47 | the number of elements |
| GleamList.DoReverse | priv/static/todo_mvc.mjs:1165-1178 | the remaining elements reversed, in front of the accumulator's |
| GleamList.Reverse | priv/static/todo_mvc.mjs:1179-1181 | the elements in the opposite order |
| GleamList.ReversedInvolution | priv/static/todo_mvc.mjs:1179-1181 | reversing twice gives the original elements back |
| GleamList.ReversedAppend | priv/static/todo_mvc.mjs:1201-1214 | reversing a concatenation reverses both parts and swaps them |
| GleamList.Map | priv/static/todo_mvc.mjs:1182-1200 | `fun` applied to each element, in the original order, although the loop collects the results in reverse |
| GleamList.ReverseAndPrepend | priv/static/todo_mvc.mjs:1201-1214 | the prefix reversed, in front of the suffix |
| GleamList.Concat2 | priv/static/todo_mvc.mjs:1215-1231 | the elements of every list, list after list, in order |
| TodoApp.Init | priv/static/todo_mvc.mjs:1911-1913 | no task typed, no tasks, and a read of the saved `task` from local storage |
| TodoApp.Update | priv/static/todo_mvc.mjs:1919-1946 | typing stores the text and writes it to local storage; a read of the cache sets the task when it succeeds and changes nothing when it fails; adding appends the typed task to the tasks and clears the input, and does nothing when no task is typed |
| TodoApp.TypeThenAdd | priv/static/todo_mvc.mjs:1919-1946 | typing and then adding appends exactly the typed text, clears the input and writes the text to local storage |
| TodoApp.AddTwiceIsAddOnce | priv/static/todo_mvc.mjs:1931-1944 | a second add right after the first changes nothing |
| TodoApp.TasksOnlyGrow | priv/static/todo_mvc.mjs:1919-1946 | over any sequence of messages the old tasks stay a prefix of the new ones, with at most one task added per message |
| Vdom.AttributeOf | priv/static/todo_mvc.mjs:1277-1296 | a plain (not property) attribute with that name, whose value reads back as the given string |
| Vdom.On | priv/static/todo_mvc.mjs:1285-1299 | an event entry named `on` followed by the event name, carrying the handler |
| Vdom.ElementOf | priv/static/todo_mvc.mjs:1323-1355 | an unkeyed element in the default namespace with the given tag and attributes; void exactly for the fourteen void tags, which lose their children, while every other tag keeps them |
| Vdom.Expand | priv/static/todo_mvc.mjs:1645-1653 | a fragment stands for its elements and anything else for itself; the result is never larger than the vnode, and strictly smaller for a fragment |
| HamtBits.BitcountCounts | priv/static/todo_mvc.mjs:506-513 | the SWAR `bitcount` equals the number of set bits of the word |
| HamtBits.IndexIsRank | priv/static/todo_mvc.mjs:514-516 | `index(bitmap, 1 << m)` is the number of set bits of the bitmap below position `m` |
| HamtBits.Probe | priv/static/todo_mvc.mjs:500-516 | the `bitmap & bit` test is zero exactly when bucket `m` is clear, and `index` gives the bucket's rank |
| HamtBits.WithBit | priv/static/todo_mvc.mjs:703 | or-ing the bucket's bit into the bitmap gives the bitmap with bucket `m` occupied and every other bucket as before |
| HamtBits.WithoutBit | priv/static/todo_mvc.mjs:894 | xor-ing the bit of an occupied bucket vacates it and leaves every other bucket as before |
| HamtBits.RankOr | priv/static/todo_mvc.mjs:695-705 | setting a clear bit raises by one the ranks of the buckets above it and no others |
| HamtBits.RankXor | priv/static/todo_mvc.mjs:889-906 | clearing a set bit lowers by one the ranks of the buckets above it and no others |
| HamtBits.PopcountOr | priv/static/todo_mvc.mjs:695-705 | setting a clear bit adds one set bit |
| HamtBits.PopcountOther | priv/static/todo_mvc.mjs:889-906 | a bitmap that is not the single bit `m` but holds it has at least two set bits, and clearing `m` leaves one fewer |
| HamtBits.MasksDetermine | priv/static/todo_mvc.mjs:500-502 | two hashes with the same 5-bit chunk at each shift from 0 to 30 are equal, so a path of depth seven identifies a hash |
| HamtBits.TopMask | priv/static/todo_mvc.mjs:500-502 | at shift 30 only two bits of the hash are left, so the chunk is below 4 |
| HamtArrays.CloneAndSet | priv/static/todo_mvc.mjs:517-525 | a copy of the same length with `val` at `at` and every other index unchanged; at the length it appends |
| HamtArrays.CloneAndSetLoop | priv/static/todo_mvc.mjs:517-525 | the copying loop produces `CloneAndSet` |
| HamtArrays.SpliceIn | priv/static/todo_mvc.mjs:526-539 | one longer, `val` at `at`, the elements below `at` in place and those from `at` on one place up |
| HamtArrays.SpliceInLoop | priv/static/todo_mvc.mjs:526-539 | the two copying loops produce `SpliceIn` |
| HamtArrays.SpliceOut | priv/static/todo_mvc.mjs:540-553 | one shorter, the elements below `at` in place and those above `at` one place down |
| HamtArrays.SpliceOutLoop | priv/static/todo_mvc.mjs:540-553 | the two copying loops produce `SpliceOut` |
| HamtArrays.SpliceOutIn | priv/static/todo_mvc.mjs:526-553 | splicing an element in and then out at the same place gives the array back |
| HamtNode.CollisionIndexOf | priv/static/todo_mvc.mjs:744-752 | the first position whose entry has the key, or -1 exactly when no entry has it |
| HamtNode.CollisionIndexOfLoop | priv/static/todo_mvc.mjs:744-752 | the scanning loop returns `CollisionIndexOf` |
| HamtNode.IndexLookup | priv/static/todo_mvc.mjs:777-791 | under a well-routed index node, a key can only be in the child ranked at its chunk, and is absent when the chunk's bit is clear |
| HamtNode.ArrayLookup | priv/static/todo_mvc.mjs:763-776 | under a well-routed array node, a key can only be in the slot of its chunk |
| HamtNode.CollisionLookup | priv/static/todo_mvc.mjs:792-798 | under a collision node, a key is present exactly when `collisionIndexOf` finds it, with that entry's value |
| HamtFind.Find | priv/static/todo_mvc.mjs:753-762 | an entry is found exactly when the key is under the node, and it is the key with its value |
| HamtFind.FindArray | priv/static/todo_mvc.mjs:763-776 | the same, through the slot of the key's chunk |
| HamtFind.FindIndex | priv/static/todo_mvc.mjs:777-791 | the same, through the child at the bit's index, with nothing found on a clear bit |
| HamtFind.FindChild | priv/static/todo_mvc.mjs:782-790 | the same, once the bitmap has named the child |
| HamtFind.FindCollision | priv/static/todo_mvc.mjs:792-798 | the same, through `collisionIndexOf` |
| HamtFind.IndexMiss | priv/static/todo_mvc.mjs:779-781 | a clear bit at the key's chunk means the key is not under the index node |
| HamtFind.IndexHit | priv/static/todo_mvc.mjs:782-790 | a set bit names, through `index`, the only child that may hold the key |
| HamtShape.EmptyWF | priv/static/todo_mvc.mjs:495-499 | `EMPTY` is a well-formed node holding nothing |
| HamtAssoc.Assoc | priv/static/todo_mvc.mjs:576-585 | a well-formed node holding the old bindings with `key` bound to `val`; the very same node exactly when that binding was already there; `addedLeaf` set exactly when the key was absent |
| HamtAssoc.CreateNode | priv/static/todo_mvc.mjs:554-575 | a well-formed node holding exactly the two bindings, for equal and for different hashes |
| HamtAssoc.AssocArray | priv/static/todo_mvc.mjs:586-632 | the outcome `Assoc` promises, for an array node |
| HamtAssoc.AssocArrayEntry | priv/static/todo_mvc.mjs:597-622 | the same, when the slot holds an entry: kept, overwritten or split |
| HamtAssoc.AssocArrayChild | priv/static/todo_mvc.mjs:623-631 | the same, when the slot holds a node to recurse into |
| HamtAssoc.AssocIndex | priv/static/todo_mvc.mjs:633-708 | the outcome `Assoc` promises, for an index node |
| HamtAssoc.AssocIndexChild | priv/static/todo_mvc.mjs:636-673 | the same, when the key's bit is set |
| HamtAssoc.AssocIndexRecurse | priv/static/todo_mvc.mjs:637-648 | the same, when the child at the bit is a node |
| HamtAssoc.AssocIndexEntry | priv/static/todo_mvc.mjs:649-673 | the same, when the child at the bit is an entry: kept, overwritten or split |
| HamtAssoc.AssocIndexMiss | priv/static/todo_mvc.mjs:674-707 | the same, when the key's bit is clear |
| HamtAssoc.AssocIndexInsert | priv/static/todo_mvc.mjs:695-706 | the same, when the entry is spliced in at its rank under the bitmap with the key's bit set |
| HamtAssoc.AssocExpand | priv/static/todo_mvc.mjs:676-693 | the same, when a full index node turns into an array node |
| HamtAssoc.Expand | priv/static/todo_mvc.mjs:676-693 | the array node's slots: each old child in the slot of its bit, the new child in its clear slot, nothing elsewhere |
| HamtAssoc.ExpandLoop | priv/static/todo_mvc.mjs:680-688 | the loop that shifts the bitmap bit by bit produces `Expand` |
| HamtAssoc.AssocCollision | priv/static/todo_mvc.mjs:709-743 | the outcome `Assoc` promises, for a collision node: overwrite or append on the node's own hash, and otherwise wrap the node in an index node |
| HamtAssoc.AssocWrapped | priv/static/todo_mvc.mjs:731-742 | the same, once the collision node sits alone under the bit of its hash |
| HamtWithout.Without | priv/static/todo_mvc.mjs:799-808 | nothing is left exactly when the key was the only one; otherwise a well-formed node holding the old bindings without the key, and the very same node exactly when the key was absent |
| HamtWithout.WithoutArray | priv/static/todo_mvc.mjs:809-869 | the outcome `Without` promises, for an array node |
| HamtWithout.ArrayDrop | priv/static/todo_mvc.mjs:826-863 | the same, when the slot loses its last key: compaction at `MIN_ARRAY_NODE`, and otherwise the slot is cleared |
| HamtWithout.CompactRemoves | priv/static/todo_mvc.mjs:827-857 | the compacted index node is exactly the array node without the key |
| HamtWithout.CompactLoop | priv/static/todo_mvc.mjs:827-857 | the two loops build the compacted index node, with one child fewer than the array node had |
| HamtWithout.CompactRange | priv/static/todo_mvc.mjs:833-850 | one loop collects the occupied slots' children in order and sets their bits |
| HamtWithout.WithoutIndex | priv/static/todo_mvc.mjs:870-909 | the outcome `Without` promises, for an index node; a clear bit leaves the node as it is |
| HamtWithout.WithoutIndexChild | priv/static/todo_mvc.mjs:876-908 | the same, once the bitmap has named the child |
| HamtWithout.IndexDrop | priv/static/todo_mvc.mjs:889-906 | the same, when the child loses its last key: the node goes with its last bit, and otherwise the child is spliced out and its bit cleared |
| HamtWithout.WithoutCollision | priv/static/todo_mvc.mjs:910-923 | the outcome `Without` promises, for a collision node |
| Dict.New | priv/static/todo_mvc.mjs:969-971 | an empty dict of size 0 |
| Dict.SizeIsCount | priv/static/todo_mvc.mjs:976-979 | the size of a valid dict is the number of keys it holds |
| Dict.Get | priv/static/todo_mvc.mjs:986-995 | the value bound to the key, or `notFound` |
| Dict.Has | priv/static/todo_mvc.mjs:1031-1036 | true exactly when the key is bound |
| Dict.Set | priv/static/todo_mvc.mjs:1001-1009 | a valid dict with the key bound to the value; one larger exactly when the key was new; the very same dict exactly when the key was already bound to that value |
| Dict.Delete | priv/static/todo_mvc.mjs:1014-1026 | a valid dict without the key; one smaller exactly when the key was bound; the very same dict exactly when it was not |
| Dict.SetThenGet | priv/static/todo_mvc.mjs:986-1009 | a key just set reads back the value set, and every other key reads as before |
| Dict.DeleteThenGet | priv/static/todo_mvc.mjs:986-1036 | a key just deleted is absent, and every other key reads as before |
| Attributes.Start | priv/static/todo_mvc.mjs:1433-1445 | on a morph, the previous attribute names and handler names are remembered as stale, and otherwise none are; nothing is pending |
| Attributes.Listen | priv/static/todo_mvc.mjs:1455-1460 | the callback is always stored under the event, and `addEventListener` is logged only when the event had no handler |
| Attributes.Step | priv/static/todo_mvc.mjs:1446-1485 | one attribute entry never touches the element's tag, namespace, children or raw HTML |
| Attributes.PropertyStep | priv/static/todo_mvc.mjs:1449-1453 | only the element's properties and the stale attribute names change, the name is crossed off on a morph, and no listener is attached |
| Attributes.PlainStep | priv/static/todo_mvc.mjs:1477-1484 | a string value is written with `setAttribute`; only attributes, properties and the stale names change; no listener is attached |
| Attributes.StepStores | priv/static/todo_mvc.mjs:1454-1470 | an event entry stores its callback under its event and replaces any earlier one; any other entry leaves the handlers alone |
| Attributes.StepAttaches | priv/static/todo_mvc.mjs:1457-1459 | one entry logs `addEventListener` for an event only when it declares the event and the event has no handler yet |
| Attributes.StepClass | priv/static/todo_mvc.mjs:1471-1472 | a `class` entry starts the class text or adds to it after one space |
| Attributes.StepStyle | priv/static/todo_mvc.mjs:1473-1474 | a `style` entry starts the style text or adds to it with no separator |
| Attributes.StepRawHtml | priv/static/todo_mvc.mjs:1475-1476 | a `dangerous-unescaped-html` entry replaces the pending raw HTML |
| Attributes.Loop | priv/static/todo_mvc.mjs:1446-1485 | the loop never touches the element's tag, namespace, children or raw HTML |
| Attributes.LoopClass | priv/static/todo_mvc.mjs:1471-1472 | after the loop, the class text is the `class` entries joined with one space, and is pending exactly when there is one |
| Attributes.LoopStyle | priv/static/todo_mvc.mjs:1473-1474 | the style text is the `style` entries concatenated, and is pending exactly when there is one |
| Attributes.LoopRawHtml | priv/static/todo_mvc.mjs:1475-1476 | the raw HTML is that of the last `dangerous-unescaped-html` entry, and is pending exactly when there is one |
| Attributes.LoopHandlers | priv/static/todo_mvc.mjs:1454-1470 | the handler names grow by exactly the declared events, and each new one gets a listener |
| Attributes.LoopStrips | priv/static/todo_mvc.mjs:1449-1484 | on a morph, `on…` events and property or plain names are crossed off the stale sets, but server events are not; without a morph both sets stay as they were |
| Attributes.LoopCallbacks | priv/static/todo_mvc.mjs:1454-1470 | each event ends with the callback of the last entry that declares it; a listener is attached once if the event had no handler before, and never if it had one |
| Attributes.WritePending | priv/static/todo_mvc.mjs:1486-1495 | pending class or style text is written once with `setAttribute` and crossed off the stale names; without pending text nothing changes |
| Attributes.Strip | priv/static/todo_mvc.mjs:1496-1504 | every stale attribute is removed and logged, every other attribute stays, and every stale handler goes with its listener |
| Attributes.Finish | priv/static/todo_mvc.mjs:1486-1504 | the writes after the loop never touch the element's tag, namespace, children or raw HTML |
| Attributes.FinishAttachesNothing | priv/static/todo_mvc.mjs:1486-1504 | writing `class` and `style` and stripping attach no listener, and on a morph drop exactly the stale handlers |
| Attributes.Pass | priv/static/todo_mvc.mjs:1441-1504 | the whole attribute phase never touches the element's tag, namespace, children or raw HTML |
| Attributes.PassCallbacks | priv/static/todo_mvc.mjs:1454-1504 | a declared event that survives the phase holds the callback of its last entry; `addEventListener` is logged for it exactly once when it had no handler before and never when it had one |
| Attributes.ListenersMatchHandlers | priv/static/todo_mvc.mjs:1454-1504 | when every registered event had its listener before the phase, every one has it after, and no other listener remains |
| Attributes.MorphHandlers | priv/static/todo_mvc.mjs:1441-1504 | on a morph, the handlers left are the `on…` events declared now and the newly declared server events; every other previous handler goes with its listener |
| Attributes.MorphStripsUndeclared | priv/static/todo_mvc.mjs:1442-1499 | on a morph, a previous attribute that no property, plain, `class` or `style` entry declares is removed |
| Attributes.ServerEntry | priv/static/todo_mvc.mjs:1463-1464 | a `data-lustre-on-` name takes the server-event branch and names the event after the prefix |
| Attributes.ServerEventLostOnMorph | priv/static/todo_mvc.mjs:1463-1504 | re-rendering an element with the same `data-lustre-on-` entry removes both that attribute and its handler |
| Children.DropStale | priv/static/todo_mvc.mjs:1607-1611 | previous children whose key is not incoming are removed from the cursor on; the loop stops at a kept node or at the end, and reading the key of a text node throws |
| Children.DropStaleKeeps | priv/static/todo_mvc.mjs:1607-1611 | when the cursor is already on a kept node, nothing is removed |
| Children.Positional | priv/static/todo_mvc.mjs:1535-1538 | the vnode is queued against the node at the cursor, and the cursor moves to that node's next sibling |
| Children.Placeholder | priv/static/todo_mvc.mjs:1630-1634 | an empty text node is created and inserted before the cursor, and the vnode is queued against it |
| Children.Move | priv/static/todo_mvc.mjs:1641-1643 | the keyed node is moved before the cursor and the vnode is queued against it |
| Children.KeyedStep | priv/static/todo_mvc.mjs:1606-1644 | `diffKeyedChild` queues exactly one item, for the vnode, unless it throws, and keeps every listener |
| Children.KeyedFreshKey | priv/static/todo_mvc.mjs:1624-1644 | a first occurrence of a key that a previous child has goes on to pairing or moving, once its key is recorded as seen |
| Children.KeyedDuplicate | priv/static/todo_mvc.mjs:1619-1623 | a key seen before is queued against no previous node, a duplicate-key warning is logged, and nothing else changes |
| Children.KeyedNewAtEnd | priv/static/todo_mvc.mjs:1625-1629 | a new key with the cursor past the end is queued against no previous node, and its key is recorded |
| Children.KeyedNewPlaceholder | priv/static/todo_mvc.mjs:1630-1634 | a new key with the cursor on a node puts an empty text node right before it and queues the vnode against that node; the cursor stays |
| Children.KeyedAtCursor | priv/static/todo_mvc.mjs:1636-1640 | a key whose node is at the cursor is paired with it, and the cursor advances |
| Children.KeyedElsewhere | priv/static/todo_mvc.mjs:1641-1643 | a key whose node is further on moves that node before the cursor, keeping its identity, and the cursor stays |
| Children.ChildStep | priv/static/todo_mvc.mjs:1523-1539 | in keyed mode a keyed element goes through `diffKeyedChild` and anything else is paired by position; after a `TypeError` nothing more happens |
| Children.Loop | priv/static/todo_mvc.mjs:1523-1540 | the child loop keeps every listener, keeps the keyed map valid, and queues at most the size of the incoming children |
| Children.FaultSticks | priv/static/todo_mvc.mjs:1523-1540 | once a `TypeError` is thrown, the rest of the loop changes nothing |
| Children.Truncate | priv/static/todo_mvc.mjs:1541-1545 | every node from the cursor on is removed, and nothing else changes |
| Children.TruncateFrom | priv/static/todo_mvc.mjs:1541-1545 | started at child `kept`, the children become the first `kept` ones, with one `removeChild` logged for each node removed |
| Children.Phase | priv/static/todo_mvc.mjs:1511-1545 | the child phase keeps every listener and queues fewer items than the size of the incoming children |
| Children.UnkeyedIsPositional | priv/static/todo_mvc.mjs:1535-1538 | without keyed mode, every vnode is paired by position |
| Children.UnkeyedPhase | priv/static/todo_mvc.mjs:1511-1545 | unkeyed, incoming vnode `k` (fragments flattened) is queued against previous child `k`, and the previous children past the incoming ones are removed, one `removeChild` each |
| Children.KeyedReorder | priv/static/todo_mvc.mjs:1606-1644 | with distinct keys that all have a previous node, the children after each step are the matched nodes in incoming order followed by the unmatched ones, and each vnode is queued against the node with its key |
| Children.KeyedPhaseReorders | priv/static/todo_mvc.mjs:1511-1545 | when the incoming keys cover every previous child, the keyed phase leaves exactly the previous nodes in incoming order, creating and removing none |
| Children.KeysCorrespondMatch | priv/static/todo_mvc.mjs:1516-1521 | when the previous children and the incoming elements carry the same keys, each once, the map of the previous children meets the keyed phase's matching conditions |
| Children.CorrespondingKept | priv/static/todo_mvc.mjs:1606-1611 | then no previous child is removed as stale |
| Children.CorrespondingMatched | priv/static/todo_mvc.mjs:1625-1644 | then every previous child is the match of some incoming element |
| Children.MatchedKeys | priv/static/todo_mvc.mjs:1625-1644 | then the node matched with incoming element `i` is a previous child carrying its key |
| Children.KeyedItemsPositional | priv/static/todo_mvc.mjs:1640-1643 | the keyed phase queues incoming element `i` against the node it places at position `i` |
| Children.KeyedPhaseMatchesKeys | priv/static/todo_mvc.mjs:1511-1545 | with the maps `getKeyedChildren` builds and matching keys, the keyed phase puts at position `i` the previous child with the key of incoming element `i`, queues that pair, and creates, throws and warns nothing |
| Children.KeyedChildren | priv/static/todo_mvc.mjs:1593-1605 | `getKeyedChildren(prev)` maps each key to a previous child that carries it |
| Children.KeyedChildrenComplete | priv/static/todo_mvc.mjs:1593-1605 | every previous child carrying a non-empty key is indexed under that key |
| Children.KeyedChildrenLast | priv/static/todo_mvc.mjs:1596-1600 | a key is mapped to the last previous child carrying it, as `Map.set` overwrites |
| Children.IncomingKeys | priv/static/todo_mvc.mjs:1593-1605 | the keys of the incoming vnodes never include the empty key |
| Children.IncomingKeysAre | priv/static/todo_mvc.mjs:1593-1605 | the incoming keys are exactly the non-empty keys of the incoming elements, fragments flattened |
| Element.WithHandlerMap | priv/static/todo_mvc.mjs:1433-1440 | the element gets an empty handler map when it has none; otherwise the page is unchanged |
| Element.AttributesApplied | priv/static/todo_mvc.mjs:1441-1504 | the attribute phase keeps the page valid and leaves the element's children, the node counter and the warnings alone |
| Element.AttrPhaseKeepsValid | priv/static/todo_mvc.mjs:1454-1504 | after the attribute phase, every registered event has its listener and no other listener remains |
| Element.ChildrenDiffed | priv/static/todo_mvc.mjs:1511-1545 | the child phase keeps the page valid and the registry untouched, and queues fewer items than the children's size |
| Element.KeyedChildrenDiffed | priv/static/todo_mvc.mjs:1511-1545 | on a keyed morph whose previous children carry the incoming keys, each once, `createElementNode` reorders the previous children into incoming key order and queues each against its incoming element, without fault, new nodes or warnings |
| Element.Registered | priv/static/todo_mvc.mjs:1430-1440 | the element exists with the vnode's tag and namespace, and has a handler map |
| Element.Attributed | priv/static/todo_mvc.mjs:1430-1504 | after the attributes, the element still has the vnode's tag and namespace |
| Element.Completed | priv/static/todo_mvc.mjs:1505-1545 | recording the key, or writing raw HTML and stopping, or the child phase: the page stays valid and the work list stays well formed |
| Element.CreateElement | priv/static/todo_mvc.mjs:1429-1547 | the element is the previous node exactly when that can be morphed, and otherwise a fresh node; either way it has the vnode's tag and namespace; the page stays valid and only the children are queued |
| Element.TargetFacts | priv/static/todo_mvc.mjs:1431-1432 | the target is the previous node exactly when it can be morphed, and otherwise the next id, which is not yet in use |
| Element.RawHtmlSkipsChildren | priv/static/todo_mvc.mjs:1505-1510 | without a key, raw HTML replaces the element's children, and nothing is queued |
| Element.FreshElementQueuesChildren | priv/static/todo_mvc.mjs:1511-1545 | a fresh element queues each incoming child against no previous node, removes nothing and cannot throw |
| Element.FreshElementKeepsOthers | priv/static/todo_mvc.mjs:1429-1547 | without a node to morph, `createElementNode` throws nothing and touches no node but the new one |
| Element.PositionalItemsFresh | priv/static/todo_mvc.mjs:1535-1538 | against no previous children, incoming vnode `i` is queued with no previous node, in reverse order |
| Reconciler.TextTurn | priv/static/todo_mvc.mjs:1390-1403 | the text branch keeps the page valid, only adds nodes, and queues nothing |
| Reconciler.ElementTurn | priv/static/todo_mvc.mjs:1404-1417 | the element branch keeps the page valid and queues fewer items than the vnode's size |
| Reconciler.Advance | priv/static/todo_mvc.mjs:1421 | a sibling reached by `nextSibling` is a child of the parent |
| Reconciler.SpreadItems | priv/static/todo_mvc.mjs:1418-1422 | fragment element `i` is queued against the previous node advanced `i` siblings, and the items run in reverse order |
| Reconciler.FragmentTurn | priv/static/todo_mvc.mjs:1418-1422 | the fragment branch keeps the page valid and queues fewer items than the vnode's size |
| Reconciler.FragmentTurnQueue | priv/static/todo_mvc.mjs:1418-1422 | the fragment branch changes no node and puts one item per element in front of the rest |
| Reconciler.TurnOf | priv/static/todo_mvc.mjs:1387-1425 | one turn keeps the page valid and queues fewer items than the vnode's size, so the loop ends |
| Reconciler.Run | priv/static/todo_mvc.mjs:1386-1427 | the loop keeps the page valid and only adds nodes |
| Reconciler.RunStep | priv/static/todo_mvc.mjs:1386-1426 | the loop pops the last item, stops at the first exception, and otherwise keeps the first node produced |
| Reconciler.OutKept | priv/static/todo_mvc.mjs:1394-1417 | once a node is kept, `morph` returns that node or throws |
| Reconciler.TextNodeReused | priv/static/todo_mvc.mjs:1395-1398 | a text vnode over a text node keeps that node and writes its text only when it differs |
| Reconciler.TextReplacesElement | priv/static/todo_mvc.mjs:1399-1403 | a text vnode over an element puts a fresh text node with the content in the element's place, and returns it |
| Reconciler.MatchingElementKept | priv/static/todo_mvc.mjs:1404-1417 | an element vnode that can morph the previous element returns that same node unless it throws |
| Reconciler.OtherElementReplaced | priv/static/todo_mvc.mjs:1404-1417 | an element vnode that cannot morph builds a fresh element, puts it in the previous node's place, and returns it; it cannot throw, and the parent is the only other node changed |
| Reconciler.FreshTextTurn | priv/static/todo_mvc.mjs:1391-1394 | a text vnode without a previous node creates a text node and appends it to the parent, and nothing else changes |
| Reconciler.FreshElementTurn | priv/static/todo_mvc.mjs:1404-1417 | an element vnode without a previous node builds an element and appends it, and only its children are queued |
| Reconciler.FreshElementReplaces | priv/static/todo_mvc.mjs:1404-1417 | an element vnode that cannot morph its previous node builds an element and puts it in that node's place |
| Reconciler.FreshRun | priv/static/todo_mvc.mjs:1386-1426 | rendering nodes built during this render never throws and leaves every older node as it was |
| Reconciler.TextAppended | priv/static/todo_mvc.mjs:1391-1394 | a text vnode with no previous node appends a fresh text node holding the content, and returns it |
| Reconciler.ElementAppended | priv/static/todo_mvc.mjs:1404-1417 | an element vnode with no previous node appends a fresh element and returns it; nothing can throw |
| Reconciler.EmptyFragment | priv/static/todo_mvc.mjs:1418-1422 | a fragment with no elements changes nothing, and `morph` returns no node |
| Morph.Morph | priv/static/todo_mvc.mjs:1383-1428 | `morph` leaves the page and returns the result that `Reconciler.Run` gives for the work list holding the root item |
| Morph.MorphLoop | priv/static/todo_mvc.mjs:1386-1426 | the `while (stack.length)` loop leaves the page and result `Reconciler.Run` gives |
| Morph.MorphStep | priv/static/todo_mvc.mjs:1387-1425 | one pass either throws with the outcome of the whole run, or shrinks the work list and leaves a run with the same outcome |
| Morph.MorphTurn | priv/static/todo_mvc.mjs:1388-1425 | one turn on the document matches `Reconciler.TurnOf` |
| Morph.TextTurnOn | priv/static/todo_mvc.mjs:1390-1403 | the text branch on the document matches `Reconciler.TextTurn` |
| Morph.ElementTurnOn | priv/static/todo_mvc.mjs:1404-1417 | the element branch on the document matches `Reconciler.ElementTurn` |
| Morph.FragmentTurnOn | priv/static/todo_mvc.mjs:1418-1422 | the fragment branch only reads the document, and queues what `Reconciler.FragmentTurn` queues |
| Morph.SpreadLoop | priv/static/todo_mvc.mjs:1419-1422 | the `unshift` loop over a fragment's elements builds `Reconciler.Spread` in front of the rest |
| Morph.Delivered | priv/static/todo_mvc.mjs:1549-1561 | a callback is called exactly when one is registered for the event at the target, and it is that callback; otherwise the listener detaches itself; the nodes are never touched |
| Morph.ListenerFindsHandler | priv/static/todo_mvc.mjs:1549-1561 | between renders, every attached listener finds its callback and the page stays as it was |
| Morph.DeliveryKeepsValid | priv/static/todo_mvc.mjs:1549-1561 | handling an event keeps a valid page valid |
| Morph.HandleEvent | priv/static/todo_mvc.mjs:1549-1561 | the handler on the document does what `Morph.Delivered` says |
| Render.ApplyAttributes | priv/static/todo_mvc.mjs:1441-1504 | the attribute loop and what follows it leave the document as `Element.AttributesApplied` says, and return the raw HTML collected |
| Render.AttributeEntry | priv/static/todo_mvc.mjs:1447-1484 | one entry on the document matches `Attributes.Step` |
| Render.PropertyEntry | priv/static/todo_mvc.mjs:1449-1453 | the property branch on the document matches `Attributes.Step` |
| Render.EventEntry | priv/static/todo_mvc.mjs:1454-1462 | the `on…` branch on the document matches `Attributes.Step` |
| Render.ServerEventEntry | priv/static/todo_mvc.mjs:1463-1470 | the server-event branch on the document matches `Attributes.Step` |
| Render.PlainEntry | priv/static/todo_mvc.mjs:1477-1484 | the plain branch on the document matches `Attributes.Step` |
| Render.WritePendingOn | priv/static/todo_mvc.mjs:1486-1495 | writing the pending class or style on the document matches `Attributes.WritePending` |
| Render.StripOn | priv/static/todo_mvc.mjs:1496-1504 | the two removal loops on the document match `Attributes.Strip` |
| Render.DropStaleNodes | priv/static/todo_mvc.mjs:1607-1611 | the stale-removal loop on the document matches `Children.DropStale` |
| Render.DiffKeyedChild | priv/static/todo_mvc.mjs:1606-1644 | `diffKeyedChild` on the document matches `Children.KeyedStep` |
| Render.PlaceKeyedChild | priv/static/todo_mvc.mjs:1612-1644 | after the stale children are dropped, the duplicate-key warning, the queue at the end, the placeholder, the pairing at the cursor and the move on the document together match `Children.KeyedStep`, and none of them faults |
| Render.IterateChild | priv/static/todo_mvc.mjs:1524-1539 | `iterateElement` in the child loop handles each element of a fragment, or the child itself, as `Children.Loop` does |
| Render.RemoveRest | priv/static/todo_mvc.mjs:1541-1545 | the closing removal loop on the document matches `Children.Truncate` |
| Render.DiffChildren | priv/static/todo_mvc.mjs:1523-1545 | the child loop and the closing removals on the document match `Children.Phase` |
| Render.GetKeyedChildren | priv/static/todo_mvc.mjs:1593-1605 | the loop over the previous children builds `Children.KeyedChildren`: every keyed child indexed under its key, the last one winning |
| Render.GetIncomingKeys | priv/static/todo_mvc.mjs:1593-1605 | the loop over the incoming children, with fragments flattened, builds `Children.IncomingKeys`: exactly the non-empty keys of the incoming elements |
| Render.DiffElementChildren | priv/static/todo_mvc.mjs:1511-1545 | the child phase on the document matches `Element.ChildrenDiffed` |
| Render.RegisterElement | priv/static/todo_mvc.mjs:1430-1440 | picking the element and registering its handler map matches `Element.Registered` |
| Render.CompleteElement | priv/static/todo_mvc.mjs:1505-1545 | the key, raw HTML and child steps on the document match `Element.Completed` |
| Render.CreateElementNode | priv/static/todo_mvc.mjs:1429-1547 | `createElementNode` on the document leaves it and returns what `Element.CreateElement` says |

## Left out

- Dom.Page.SetInnerHtml: it empties the child list and records the markup. It does not
  parse the markup into child nodes, as `el.innerHTML = …` does. A later morph of that
  element therefore starts with no previous children, where the browser would start from
  the parsed ones. Markup parsing is out of scope.
- Children.KeyedChildren: each previous child is indexed as itself. In the browser,
  `iterateElement` descends into a child that has an `.elements` collection (a `form` or
  `fieldset` element) and indexes its form controls instead. A keyed `form` among the
  previous children is therefore found and moved by the model, where the browser would
  not find it and would insert a placeholder. The DOM's form-control collections are
  not modelled. The application builds `form` elements
  (priv/static/todo_mvc.mjs:1832-1834) but never with a key.
- Only text and element nodes exist in the heap. Comments and other node kinds are not
  modelled, so neither is the `nodeType` test meeting one, nor `getAttribute` called on
  one in the stale-removal loop of `diffKeyedChild`.
- Attributes.PropertyStep: a property the element does not hold always counts as
  different and is written. The browser compares with the property's live default value,
  which the model does not know.
- Attributes.Step: attribute values are strings or opaque non-string values. `null` and
  `undefined` values are not modelled, so the `className !== null` and `style !== null`
  tests after the loop reduce to "some `class` or `style` entry was seen".
- Reconciler.Run: the `subtree` branch of `morph` (lazy vnodes) is not modelled, because
  no vnode constructor in this program builds one. The `isComponent` flag is not
  modelled. Neither is the `dispatch` function: the callback it returns is the value
  `Dispatch(v)` of the handler value it wraps, or `DispatchServerEvent`.
- HamtNode.WF: hashes are 32-bit words (`bv32`). `hashObject` and the other hash
  functions can return any JavaScript number, and `===` on two hashes compares whole
  numbers. The model assumes every hash fits 32 bits, as the `>>>` in `mask` treats it.
- Dict.Set: values are compared with `==`, where the source uses `===` (reference
  identity for objects). So `Dict.Set` returns the dict itself for a value that is
  structurally equal to the stored one but a different object, where the source builds
  a new dict. The same holds for the `val === node.v` tests inside `assoc`.
- `getHash` and `isEqual` (structural hashing and equality of any JavaScript value) are
  not modelled. The hash is the parameter `h`, and key equality is Dafny's `==`.
- `bitcount` is modelled with unsigned shifts, where JavaScript's `>>` is signed. It is
  only called by `index`, on `bitmap & (bit - 1)`, whose top bit is always clear, so the
  two agree on every call the trie makes.
- `Dict.forEach`, `entries`, `hashCode`, `equals`, `fromObject` and `fromMap` are not
  modelled, because the application's core does not use them.
- The `ListIterator` class is not modelled separately: `GleamList.Elements` is the
  sequence it yields. `prepend` and `toList` are `NonEmpty` and `GleamList.FromArray`.
- The compaction's `out` array in `withoutArray` is a sequence that grows at its end,
  not an array of fixed size `size - 1`. `HamtWithout.CompactLoop` proves that it ends at
  exactly that length.
- The Lustre client runtime (`LustreClientApplication`, `send`, the dispatch queue,
  effects, `requestAnimationFrame`) is not modelled. Neither is `lustreServerEventHandler`
  (JSON decoding of event data), since it only builds a message for the server.
- Local storage is not modelled: its foreign functions are effects named by
  `TodoApp.Effect` values, and their results come back as `CacheUpdatedMessage`.
- `console.warn` is not modelled as output: the duplicate-key warning, with the same
  text, is appended to `Page.warnings`.
- The view functions of the application and the decoders of the standard library are
  not modelled. `element`, `attribute` and `on` are, as `Vdom.ElementOf`,
  `Vdom.AttributeOf` and `Vdom.On`.
- The DOM's own failure when `replaceChild` is given a node that is not a child is the
  `NotFoundError` outcome of `Reconciler.Run`. It can only arise for items queued during
  a render, since the root item is a child of its parent.

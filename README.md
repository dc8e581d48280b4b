# collagejs: Stack and MountedPiece

This Dafny project models two parts of collagejs:

- **`Stack<T>`** (src/Stack.ts) is the LIFO container the library uses for child registries and collected teardowns.
- **The mount orchestration of src/MountedPiece.ts**:
  - `generatePieceId`;
  - `doMount`, which mounts a nested array of mount functions and returns one combined teardown;
  - `doUpdate`;
  - the `MountedPiece` class, whose lifecycle runs construct, `[mountKey]` (mount), `update` and `unmount`.

Module `Stacks` (stack.dfy) is the stack:

- `class Stack<T>` keeps the private array `#items` as the field `items: seq<T>`, oldest element first.
- JavaScript's `undefined` result is `None`.
- The generator behind `[Symbol.iterator]` is `class TopDownCursor`. It fixes `length - 1` on the first `next()` and then steps one index down. Each step re-reads the live stack, so a push or pop between two `next()` calls does not restart it. An index past the current top yields `undefined`.
- The generator behind `bottomToTop` is `class BottomUpCursor`. It starts at index 0 and steps one index up, comparing with the live size at every step. Once it has finished it stays finished.
- `delete` is specified by the function `DeleteTopmost`, which cuts out the topmost element that satisfies the predicate.

Module `Pieces` (pieces.dfy) is the orchestration. It models the effects of the page's code as data:

- Mount, update and teardown functions are opaque action ids.
- Their effects are events in a trace: `Mounted(action, target, props)`, `TornDown(action)` and `Updated(action, props)`.
- A mount or update specification is the tree `Single(action) | Many(items)`.
- `Mounts`, `TornDowns` and `Updates` are the trace vocabulary: the events of a list of actions performed in order. The contracts of the runtime use them.
- A teardown is the one an action returned (`Undo`), or the closure `doMount` builds over its Stack of collected teardowns (`RunStack`).

`class Runtime` holds the module counter `pieceIdCounter`, every MountedPiece constructed so far and the trace:

- The pieces are a table from id to record. A record holds the piece, the parent's id, the child registry `#childPieces` and the cleanup.
- A registry is the sequence of the registered children's ids, oldest first. `[mountKey]` pushes onto it and `unmount` deletes from it, with the same `DeleteTopmost` that specifies `Stack.delete`.
- `Valid()` is the table invariant `WellFormed`:
  - every id comes from the counter;
  - a parent was constructed before its child;
  - a registry lists only mounted children of its owner, each once.

The recursive unmount calls itself on children, whose ids exceed their parent's, so `counter - id` decreases. The instances an unmount reaches this way are `Visited`: the instance and, recursively, every child in its registry when the loop starts. The contracts of `Unmount` are stated over that set.

Teardown order follows the code. The combined teardown runs `for (const u of unmountFns)` (src/MountedPiece.ts:18-22). That loop uses the Stack's default iterator, which runs top to bottom, so teardowns run in the reverse of collection order: `[A, [B, C]]` mounts A, B, C and tears down C, B, A. The teardowns do not run in collection order. Likewise `unmount` visits the children most recently registered first.

## Model

| member | source | states |
|---|---|---|
| `Stacks.Reversed` | src/Stack.ts:137-141 | the sequence read from its last element to its first: same length, element `i` is element `|s|-1-i` |
| `Stacks.ReversedTwice` | src/Stack.ts:137-152 | reversing twice gives the sequence back, which turns the top-down order into the bottom-up one |
| `Stacks.LastMatch` | src/Stack.ts:90-98 | the index `delete`'s top-down scan stops at: it satisfies the predicate and nothing above it does; none exactly when no element matches |
| `Stacks.DeleteTopmost` | src/Stack.ts:90-98 | with no match the contents are unchanged; otherwise exactly the topmost match is cut out and the rest keep their order |
| `Stacks.DeleteTopmostSize` | src/Stack.ts:90-98 | `delete` removes one element exactly when some element matches |
| `Stacks.Stack.constructor` | src/Stack.ts:8 | a new stack is empty |
| `Stacks.Stack.FromArray` | src/Stack.ts:117-121 | a fresh stack holding a copy of the array, first element at the bottom |
| `Stacks.Stack.Push` | src/Stack.ts:16-18 | appends on top, returns the new size (old size + 1), after which `peek` is the pushed element |
| `Stacks.Stack.Pop` | src/Stack.ts:25-27 | returns the old top and leaves the contents without it; on an empty stack returns none and the stack stays empty |
| `Stacks.Stack.Peek` | src/Stack.ts:34-36 | the last element, or none exactly when the stack is empty |
| `Stacks.Stack.Top` | src/Stack.ts:44-46 | the same as `Peek` |
| `Stacks.Stack.IsEmpty` | src/Stack.ts:53-55 | holds exactly when the size is 0, and exactly when `peek` is none |
| `Stacks.Stack.Size` | src/Stack.ts:62-64 | the number of elements |
| `Stacks.Stack.Length` | src/Stack.ts:72-74 | the same as `size` |
| `Stacks.Stack.Clear` | src/Stack.ts:79-81 | afterwards the stack is empty |
| `Stacks.Stack.Delete` | src/Stack.ts:90-98 | returns true exactly when some element matches, and the new contents are `DeleteTopmost` of the old |
| `Stacks.Stack.ToArray` | src/Stack.ts:106-108 | a fresh array (so writes to it cannot reach the stack) holding the contents bottom first |
| `Stacks.Stack.Iterator` | src/Stack.ts:137-141 | a fresh, not yet started cursor over this stack |
| `Stacks.Stack.TopToBottom` | src/Stack.ts:137-141 | draining the default iterator over an unchanged stack yields the contents reversed |
| `Stacks.Stack.BottomToTop` | src/Stack.ts:148-152 | a fresh, not yet started bottom-up cursor over this stack |
| `Stacks.Stack.DrainBottomToTop` | src/Stack.ts:148-152 | draining `bottomToTop` over an unchanged stack yields the contents in order, bottom first |
| `Stacks.BottomUpCursor.Next` | src/Stack.ts:148-152 | the first call is at index 0, later calls step one index up; done exactly when the index is not below the live size, and then finished for good; otherwise the value is what the live stack holds at that index |
| `Stacks.IterationOrders` | src/Stack.ts:137-152 | the default iterator and `bottomToTop` yield the same elements in opposite orders, each the reverse of the other |
| `Stacks.BottomUpSeesLaterPushes` | src/Stack.ts:148-152 | an element pushed after `bottomToTop` started is still yielded (1, 2, then the pushed 3), and then the generator is done |
| `Stacks.TopDownCursor.Next` | src/Stack.ts:137-141 | the first call starts at the current top index, later calls step one index down; done exactly when the index is below 0; the value is whatever the live stack holds at that index, or none past its top |
| `Stacks.PushThenPop` | src/Stack.ts:16-27 | `push(x)` then `pop()` returns `x` and restores the previous contents exactly |
| `Stacks.FromArrayRoundTrip` | src/Stack.ts:106-121 | `fromArray(xs).toArray()` equals `xs`, and the new stack's top is the last of `xs` |
| `Stacks.ToArrayIsACopy` | tests/ut/Stack.test.ts:256-264 | writing into the array `toArray` returned (in place of the test's push, since a Dafny array cannot grow) leaves size 2 and contents [1, 2] |
| `Stacks.IteratorKeepsItsIndex` | tests/ut/Stack.test.ts:392-404 | with a push and a pop between `next()` calls the iterator still yields 3, 2, 1 |
| `Stacks.DeleteRemovesTopmostDuplicate` | tests/ut/Stack.test.ts:208-218 | deleting 2 from [1, 2, 3, 2] leaves [1, 2, 3] |
| `Pieces.TeardownsOf` | src/MountedPiece.ts:14-17 | the Stack `unmountFns` holds one teardown per element of the array |
| `Pieces.StackTracePush` | src/MountedPiece.ts:18-22 | the teardown pushed last runs first |
| `Pieces.TeardownReversesMount` | src/MountedPiece.ts:14-22 | the combined teardown runs exactly one teardown per mounted action, in the reverse of the mount order |
| `Pieces.TeardownsReverseMount` | src/MountedPiece.ts:14-22 | the same for the teardowns collected from an array of specifications |
| `Pieces.WithMountPiece` | src/MountedPiece.ts:59 | the props passed to mount are the caller's props, with `mountPieceKey` set to this instance's capability whatever the caller put there |
| `Pieces.BelowAtLeast` | src/MountedPiece.ts:50-56 | a descendant's id is at least its ancestor's. This holds by `Below`'s own guard, which only follows a parent link to a smaller id. The table invariant (a parent is constructed before its child) makes that guard redundant, so `Below` is exactly the descendant relation |
| `Pieces.BelowThroughParent` | src/MountedPiece.ts:65-70 | a descendant of a child is a descendant of its parent |
| `Pieces.SiblingsDisjoint` | src/MountedPiece.ts:65-70 | two different children of one parent have no descendant in common |
| `Pieces.BelowSameParents` | src/MountedPiece.ts:65-75 | `unmount` changes registries only, so who descends from whom does not change |
| `Pieces.UnmountAllAppend` | src/MountedPiece.ts:65-70 | unmounting two lists of instances one after the other gives the events of both, in order |
| `Pieces.ChildrenInReverseOrder` | src/MountedPiece.ts:65-70 | `unmount` visits every child registered when it starts exactly once, the most recently registered first |
| `Pieces.ChildrenFromInReverseOrder` | src/MountedPiece.ts:65-70 | the same for the children from a given registry index upwards |
| `Pieces.UnmountTraceFrame` | src/MountedPiece.ts:65-75 | what `unmount` does depends only on the records of the instance and its descendants |
| `Pieces.ChildrenTraceFrame` | src/MountedPiece.ts:65-70 | the same for the loop over the children |
| `Pieces.UnmountTraceWithinSubtree` | src/MountedPiece.ts:65-75 | every event of an unmount comes from the cleanup of the instance itself or of one of its descendants |
| `Pieces.ChildrenTraceWithinSubtree` | src/MountedPiece.ts:65-70 | the same for the loop over the children |
| `Pieces.TopLevelIndependent` | src/MountedPiece.ts:50-56 | two top-level instances are not descendants of each other |
| `Pieces.DeleteChild` | src/MountedPiece.ts:72-74 | deleting an id from a registry keeps it free of duplicates and leaves no entry with that id |
| `Pieces.RecordCleanup` | src/MountedPiece.ts:59 | recording a cleanup keeps the table invariant |
| `Pieces.Register` | src/MountedPiece.ts:60-62 | pushing a newly mounted child onto its parent's registry keeps the table invariant |
| `Pieces.Deregister` | src/MountedPiece.ts:72-74 | deleting from a registry keeps the table invariant |
| `Pieces.Runtime.constructor` | src/MountedPiece.ts:7 | the counter starts at 0, with no instances and no events |
| `Pieces.Runtime.GeneratePieceId` | src/MountedPiece.ts:8-10 | increments the counter and returns its new value |
| `Pieces.Runtime.Construct` | src/MountedPiece.ts:50-56 | the new instance gets an id above every existing one, no children and no cleanup, and the table invariant holds |
| `Pieces.Runtime.DoMount` | src/MountedPiece.ts:12-25 | performs one `Mounted` event per action in depth-first, left-to-right order, with the same target and props, and returns `TeardownOf` of the specification |
| `Pieces.Runtime.RunTeardown` | src/MountedPiece.ts:18-22 | running a combined teardown iterates its Stack top to bottom: the events are `TeardownTrace` of it |
| `Pieces.Runtime.DoUpdate` | src/MountedPiece.ts:27-36 | no update specification does nothing; otherwise one `Updated` event per action, in order, with the same props |
| `Pieces.Runtime.Mount` | src/MountedPiece.ts:58-63 | mounts with the injected props and records the teardown. An instance with a parent is pushed once on top of the parent's registry. A top-level one changes no registry. Nothing else changes, and the table invariant holds |
| `Pieces.Runtime.Update` | src/MountedPiece.ts:77-79 | runs the piece's update specification with the props as given, unmerged |
| `Pieces.Runtime.Unmount` | src/MountedPiece.ts:65-75 | the events are `UnmountTrace`: every child's unmount, most recent first, then the cleanup. Afterwards every instance the unmount reached through the registries (`Visited`: the instance and, recursively, the children registered when it started) has an empty registry, and the parent's registry is the old one without this id. Nothing outside those instances and the parent changes, and the table invariant holds |
| `Pieces.Runtime.UnmountChildren` | src/MountedPiece.ts:66-70 | the loop over the live registry unmounts each child, top down, although each child deletes itself from the registry being iterated; its events are `ChildrenTrace` of the table at the start, the registry ends empty, every instance reached from the children has an empty registry, and nothing else but those records changes |
| `Pieces.MountSingleChild` | src/MountedPiece.ts:58-63 | mounting a constructed child performs its one mount action, records its teardown and pushes it on top of its parent's registry |
| `Pieces.AddChild` | src/MountedPiece.ts:50-63 | constructing and mounting a child takes the next id, records its teardown and registers it with its parent |
| `Pieces.MountPair` | src/MountedPiece.ts:50-63 | a top-level instance 1 and its child 2 give a table of exactly those two records, 2 registered with 1 |
| `Pieces.MountChain` | src/MountedPiece.ts:50-63 | adding a child 3 of 2 gives the three-instance chain 1, 2, 3 |
| `Pieces.ChainVisited` | src/MountedPiece.ts:65-70 | unmounting the top of the chain reaches all three instances through the registries |
| `Pieces.UnmountChainTop` | src/MountedPiece.ts:65-75 | after unmounting the top of the chain, the middle instance's and the bottom instance's registries are empty |
| `Pieces.ChainScenario` | src/MountedPiece.ts:65-75 | unmounting the middle instance again afterwards runs only its own cleanup: the bottom instance is no longer registered with it |
| `Pieces.MountRecords` | src/MountedPiece.ts:58-63 | recording the cleanup and then pushing onto the parent's registry keeps the table invariant, changes only the instance's and its parent's records, and puts the instance on top of the parent's registry |
| `Pieces.Detached` | src/MountedPiece.ts:72-74 | deleting from the parent's registry keeps the set of instances |
| `Pieces.DetachedRecords` | src/MountedPiece.ts:72-74 | detaching keeps the table invariant, changes only the parent's registry, and removes this id from it |
| `Pieces.DetachedAfterChildren` | src/MountedPiece.ts:65-75 | once the children are unmounted, the delete from the parent's registry completes `unmount` on the table |
| `Pieces.BeforeChild` | src/MountedPiece.ts:66-68 | before a child is unmounted it is on top of the registry, and its subtree is untouched, so its unmount events are those of the original table |
| `Pieces.AfterChild` | src/MountedPiece.ts:66-68 | after a child is unmounted the loop goes on with the next index down |
| `Pieces.LaterSiblingsDisjoint` | src/MountedPiece.ts:66-68 | a descendant of one child descends from no later-registered sibling |
| `Pieces.LaterVisitedDisjoint` | src/MountedPiece.ts:66-68 | what the unmounts of later-registered siblings reached is out of reach of the child's own unmount |
| `Pieces.VisitedBelow` | src/MountedPiece.ts:65-70 | every instance `unmount` reaches through the registries is a descendant by parent links |
| `Pieces.VisitedFromBelow` | src/MountedPiece.ts:66-68 | every instance reached from the children from an index upwards descends from one of them |
| `Pieces.VisitedFromAbove` | src/MountedPiece.ts:66-68 | every instance reached from the children has a larger id than the instance being unmounted |
| `Pieces.VisitedCoversRegistry` | src/MountedPiece.ts:66-68 | what a registered child's unmount reaches is part of what its parent's loop reaches |
| `Pieces.UnmountParentOfLeaf` | src/MountedPiece.ts:65-75 | a parent with one childless child: the child's cleanup runs, then the parent's |
| `Pieces.UnmountLeaf` | src/MountedPiece.ts:65-71 | an instance without children only runs its cleanup |
| `Pieces.MountTopLevel` | tests/ut/MountedPiece.test.ts:13-34 | mounting a fresh top-level piece gives it id 1, performs its mount action once and records its teardown |
| `Pieces.MountParentAndChild` | tests/ut/MountedPiece.test.ts:67-116 | a child mounted with a parent is in the parent's registry |
| `Pieces.ParentChildScenario` | tests/ut/MountedPiece.test.ts:67-123 | unmounting the parent runs the child's teardown before the parent's, and empties the parent's registry |
| `Pieces.ConstructTwoTopLevel` | tests/ut/MountedPiece.test.ts:202-206 | two instances constructed one after the other get the different ids 1 and 2, with no children and no cleanup |
| `Pieces.MountSingleTopLevel` | src/MountedPiece.ts:58-63 | mounting a constructed top-level instance performs its one mount action and records only its teardown |
| `Pieces.MountTwoTopLevel` | tests/ut/MountedPiece.test.ts:202-216 | both instances are constructed first, then mounted one after the other; each mount performs its own action and records its own teardown |
| `Pieces.UnmountTopLevelLeaf` | src/MountedPiece.ts:65-75 | unmounting a top-level instance without children runs only its cleanup and changes no record |
| `Pieces.TwoTopLevelScenario` | tests/ut/MountedPiece.test.ts:192-227 | unmounting one top-level instance tears down only its own action and leaves the other's record unchanged |
| `Pieces.NestedOrder` | tests/ut/MountedPiece.test.ts:154-190 | `[A, [B, C]]` mounts A, B, C and its combined teardown runs C, B, A |
| `Pieces.NestedScenario` | tests/ut/MountedPiece.test.ts:154-190 | `doMount` of `[A, [B, C]]` then its teardown performs mount A, B, C, then teardown C, B, A |

## Left out

- The DOM. `HTMLElement` targets are opaque numbers, and what the actions do to the page is the trace.
- `async`/`await`. Each promise is awaited at once, so the calls are sequential. There is no interleaving.
- Rejections and exceptions thrown by actions. Every action is modelled as completing.
- Actions that call back into the runtime (mounting or unmounting pieces from inside a mount, update or teardown function). Actions only add their own event.
- The `Date.now().toString(36)` part of the id produced by `generatePieceId`. Only the counter part, which makes ids unique, is modelled.
- `Function.prototype.bind` and the imported `mountPieceCore` and `mountPieceKey`. src/mountPiece.ts and src/common.ts are not part of this model. The bound capability is the value `MountPieceFor(id)`, and the key is `MountPieceKey`.
- `Stack.toString` (src/Stack.ts:128-130). It relies on JavaScript's `join` stringification.
- The `mountPiece` getter (src/MountedPiece.ts:46-48). It only reads a field.
- Type-level declarations (src/internal-types.ts, tests/typetests).
- Pieces.Runtime.Mount: modelled for the first mount of an instance only (its cleanup is still unset). The source would push an instance mounted a second time onto its parent's registry again.
- Pieces.Runtime: the child registries are sequences of ids in one table, not separate `Stack` objects referencing each other. The recorded combined teardown holds its Stack's contents as a value, not a closure over a live Stack. Nothing else can reach those Stacks, so no aliasing is lost.
- Pieces.Runtime.DoMount, Pieces.Runtime.DoUpdate, Pieces.Runtime.RunTeardown: these module-level functions of the source are methods of `Runtime`, because they append to its trace.

# GodotSharpUtilities: last-keyframe lookup and typed child collection

A Dafny model of the two pieces of real logic in the `Aposi.GodotSharp.Utilities`
extension methods for the Godot engine:

- **Last-keyframe lookup** (`AnimationExtensions`). A track is modelled as the sequence
  of its keys (`Key(time, value)`). An animation is what the engine reports for each
  track index: `Some(keys)`, or `None` when the index names no track. For such an index
  the engine's `TrackGetKeyCount` answers -1 and `TrackGetKeyValue` answers a default
  value, `missingValue`. `GetLastKeyAtTime` is a method with the source's loop over the
  reported key count and its early return. It is proved against the specification
  function `LastKeyAtTime`. It rejects a key count of 0 with the argument error, and only
  then a negative time with the out-of-range error. It then scans for the first key at or
  after the query time and returns `max(i - 1, 0)` for that key's index `i`, or 0 when no
  key qualifies. A count of -1 passes the first check and makes the scan run zero times.
  `TryGetLastKeyAtTime` and the three `GetLastKeyValueAtTime` overloads (by index, by path,
  and the generic `<T>` one by path) are modelled on top of it.
- **Typed child collection** (`NodeExtensions`). A node is a value
  `Node(className, children)`. The type argument `T` is the set of class names that
  `is T` accepts. `GetChildren` is a recursive method over the children with the source's
  loop, appending to a list, proved against `ChildrenOfType`. `GetNodeStrict` wraps an
  abstract path lookup that returns an `Option<Node>`.

Errors are values: `Result<R, E>` with `KeyError` (`ArgumentError`,
`ArgumentOutOfRangeError`) and `NodeError` (`NodeNotFound`).

Where the documentation and the code disagree, the model follows the code.
The doc comment of `GetLastKeyAtTime` (AnimationExtensions.cs:13) says the
method returns -1 when no key is found, but the code never does. It returns 0
both when the query is at or before the first key and when every key lies
before the query time; it does not return the last index in that second case.
Lemmas `ResultIsKeyIndex`, `AtOrBeforeFirstKey` and `AllKeysBefore` pin this behaviour down.
The doc comments of the value overloads (AnimationExtensions.cs:69, :85, :105) also
disagree with the code. They say an `ArgumentException` is thrown when the track index
is invalid. In the code, a track index that names no track, including the -1 that
`FindTrack` gives for an unknown path, has key count -1. That count is not 0, so nothing
is thrown. For a non-negative time the result is key 0, and the value overloads return
the engine's default value. This matches the doc comment at :103 ("a default value if no
such key is found"). `MissingTrackGivesZero` and the contracts of the value methods state it.

Files: `wrappers.dfy` (Option, Result), `animation_extensions.dfy`, `node_extensions.dfy`.

## Model

| member | source | states |
|---|---|---|
| AnimationExtensions.FirstKeyAtOrAfter | Aposi.GodotSharp.Utilities/Extensions/AnimationExtensions.cs:30-35 | the scan's stopping index: every key before it is earlier than the query time, and the key at it (if any) is at or after it |
| AnimationExtensions.GetLastKeyAtTime | Aposi.GodotSharp.Utilities/Extensions/AnimationExtensions.cs:16-38 | equals `LastKeyAtTime` of what the engine reports; a track with no keys gives the argument error whatever the time; otherwise a negative time gives the out-of-range error; otherwise success, with an index in `[0, keyCount)` for an existing track and 0 for an index that names no track |
| AnimationExtensions.TryGetLastKeyAtTime | Aposi.GodotSharp.Utilities/Extensions/AnimationExtensions.cs:48-60 | returns true with the index of `GetLastKeyAtTime` exactly when that succeeds, i.e. exactly when the track is not an existing empty one and the time is non-negative; otherwise false with index 0 |
| AnimationExtensions.GetLastKeyValueAtTime | Aposi.GodotSharp.Utilities/Extensions/AnimationExtensions.cs:71-75 | fails with the error of `GetLastKeyAtTime` exactly when it fails; otherwise returns the value of the key at the index it chose, or the engine's default value when the index names no track |
| AnimationExtensions.GetLastKeyValueAtPath | Aposi.GodotSharp.Utilities/Extensions/AnimationExtensions.cs:87-93 | the same, on the track that `FindTrack(path, type)` designates |
| AnimationExtensions.GetLastKeyValueAtPathAs | Aposi.GodotSharp.Utilities/Extensions/AnimationExtensions.cs:107-114 | the same, with the chosen key value passed through the `As<T>` conversion |
| AnimationExtensions.ErrorConditions | Aposi.GodotSharp.Utilities/Extensions/AnimationExtensions.cs:18-28 | the argument error occurs exactly for an existing track with no keys (checked before the time); the out-of-range error exactly otherwise with a negative time; success in every other case, including an index that names no track |
| AnimationExtensions.MissingTrackGivesZero | Aposi.GodotSharp.Utilities/Extensions/AnimationExtensions.cs:18-37 | for an index that names no track (key count -1) and a non-negative time, the result is key 0, not an exception |
| AnimationExtensions.ResultIsKeyIndex | Aposi.GodotSharp.Utilities/Extensions/AnimationExtensions.cs:30-37 | a successful result on an existing track is a valid key index, so never -1 |
| AnimationExtensions.StopIndex | Aposi.GodotSharp.Utilities/Extensions/AnimationExtensions.cs:30-34 | if `i` is the first key at or after the query time, the result is `max(i - 1, 0)` |
| AnimationExtensions.AtOrBeforeFirstKey | Aposi.GodotSharp.Utilities/Extensions/AnimationExtensions.cs:30-34 | a query at or before the first key's time returns key 0 |
| AnimationExtensions.StopAfterFirstKey | Aposi.GodotSharp.Utilities/Extensions/AnimationExtensions.cs:30-34 | when the scan stops at `i >= 1`, the result is `i - 1`, its key is strictly before the query time and the next key is at or after it |
| AnimationExtensions.AllKeysBefore | Aposi.GodotSharp.Utilities/Extensions/AnimationExtensions.cs:37 | when every key is before the query time the result is 0, and for two or more keys not the last index |
| AnimationExtensions.SortedGivesLatestKeyBefore | Aposi.GodotSharp.Utilities/Extensions/AnimationExtensions.cs:30-37 | on a time-sorted track whose first key is before the query and some key is at or after it, the result is the latest key strictly before the query time |
| NodeExtensions.GetChildren | Aposi.GodotSharp.Utilities/Extensions/NodeExtensions.cs:14-27 | builds exactly `ChildrenOfType`; every element is a `T`; without `recursive` it is the filter of the direct children in child order; the starting node is not in it |
| NodeExtensions.ListingOfType | Aposi.GodotSharp.Utilities/Extensions/NodeExtensions.cs:20-21 | every node in the listing, recursive or not, is a `T` |
| NodeExtensions.NonRecursiveIsFilter | Aposi.GodotSharp.Utilities/Extensions/NodeExtensions.cs:18-21 | without `recursive`, the result equals the order-preserving filter of the direct children by `T` |
| NodeExtensions.FilterMembership | Aposi.GodotSharp.Utilities/Extensions/NodeExtensions.cs:20-21 | a node is in that filter exactly when it is a child and a `T` |
| NodeExtensions.StartNodeExcluded | Aposi.GodotSharp.Utilities/Extensions/NodeExtensions.cs:18-23 | the starting node never appears in its own result |
| NodeExtensions.ResultLength | Aposi.GodotSharp.Utilities/Extensions/NodeExtensions.cs:14-26 | the result has at most as many nodes as there are children (non-recursive) or descendants (recursive) |
| NodeExtensions.NonRecursiveIsSubsequence | Aposi.GodotSharp.Utilities/Extensions/NodeExtensions.cs:14-26 | the non-recursive result is a subsequence of the recursive one |
| NodeExtensions.DescendantPaths | Aposi.GodotSharp.Utilities/Extensions/NodeExtensions.cs:22-23 | the path listing is strictly increasing in pre-order (a path before its extensions, a smaller child index before a larger one) and names every descendant exactly once: no duplicates, and a path is listed exactly when it is non-empty and leads to a node |
| NodeExtensions.RecursiveListsEachMatchOnce | Aposi.GodotSharp.Utilities/Extensions/NodeExtensions.cs:18-24 | with `recursive`, the result is the nodes at the matching paths, and those paths are strictly increasing in pre-order (each child, then its matching descendants, then the next sibling); each path to a descendant that is a `T` occurs exactly once, and the empty path (the start node) does not |
| NodeExtensions.GetNodeStrict | Aposi.GodotSharp.Utilities/Extensions/NodeExtensions.cs:55-56 | fails with the not-found error exactly when the lookup yields nothing; otherwise returns the looked-up node |

## Left out

- Signal wrappers in every file (`ToSignal`, `SignalAsync`, `TimeoutAsync`, `ReadyAsync`, `AnimationFinishedAsync` and the rest): async adapters over the engine's event bus, with no logic of their own.
- `Wait` and `WaitForNextPhysicsFrameAsync`: they depend on the engine's timer and frame scheduling.
- `AnimationPlayerExtensions`: a foreign thread-safe call into the engine plus an async wait; its two-line guard reads engine state.
- `GodotObjectExtensions`: `Variant` conversions over an engine type that is not part of this model.
- Engine internals are parameters: `FindTrack` is `findTrack`, `Variant.As<T>` is `convert`, `GetNode<T>(path)` is `getNode`. The keys of a track index are `animation.tracks(trackIndex)`. For an index that names no track, the model follows the engine: a key count of -1 and the default value `missingValue` for a key value. The error the engine logs in that case is not modelled.
- Default arguments: Dafny has none, so callers pass them explicitly. `GetChildren<T>` defaults `recursive` to `false` (NodeExtensions.cs:14). The two path overloads default `trackType` to `Animation.TrackType.Value` (AnimationExtensions.cs:88, :108), which is `ValueTrack` here.
- `TryGetLastKeyAtTime` catches every exception. The model has only the two that `GetLastKeyAtTime` raises itself; exceptions from inside the engine are not modelled.
- `GetNodeStrict`: a failed cast of the found node to `T` inside the engine's `GetNode<T>` is part of the abstract lookup, not modelled separately.
- Floating point: `double time` is `real`, since the code only compares times.
- Node identity: nodes are values, so two equal subtrees cannot be told apart by equality. "Each matching descendant exactly once" is therefore stated over child-index paths. Since the tree is a value, `GetChildren` cannot modify it.
- `IEnumerable<T>`/`List<T>` are a `seq<Node>`; the static type `T` of the elements is the predicate `IsOfType`.

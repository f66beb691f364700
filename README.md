# DragAndDropBehavior: the group registry and the drop move

`DragAndDropBehavior` is a WPF attached behaviour. Any `ItemsControl` marked `IsDragSource`, `IsDropTarget` and `GroupName` can then drag items to another control of the same group.

This project models two parts of it: the grouped registry and the move that `Drop` makes. It then proves what they promise. Everything else in the behaviour is event wiring.

- **The registry.** There are two process-wide dictionaries, `dragSources` and `dropTargets`. Each maps a group name to the ordered list of controls registered under that group. The group `""` is the default.
  - `InitializeDragDropCollections`, `Add`, `Remove` and `GroupNameUpdated` change these dictionaries in place.
  - The `IsDragSource` and `IsDropTarget` callbacks, and the `Loaded`/`Unloaded` handlers that `Add` hooks up, call `Add` and `Remove`.
- **The move.** `Drop` turns a drop away unless three things hold: the target is a drag source of its own group, the payload is present, and the target's list does not already hold it. Otherwise it finds the first drag source of that group whose backing list holds the payload. It removes the payload from that list and appends it to the target's list.

## Layout

- `lists.dfy` (module `Lists`): the .NET `List<T>` operations the code relies on, stated on sequences.
  - `Contains` is `in` and `Add` appends.
  - `IndexOf` is the first position; `Remove` drops the first occurrence.
  - `NoDuplicates` is the shape every registry list is kept in.
- `registry.dfy` (module `Registry`): the registry updates as functions on values: `WithGroup`, `Added`, `Removed`, `FirstHolding`, `Regrouped`. Also here:
  - the invariant `Consistent`;
  - the lemmas that every update keeps it;
  - `Add` as written, with the input on which it throws.
- `move.dfy` (module `Move`): `Drop` as the function `DropOn`, with the search `FindSource`, the transfer `Transfer` and their properties.
- `behavior.dfy` (module `Behavior`): the class `DragAndDropBehavior<Item>`.
  - Its fields are the two dictionaries, the dictionary's key order, and the per-control state the handlers read and write: `GroupName`, `AllowDrop` and the `ItemsSource` lists.
  - Each handler is a method that changes those fields in place. Its `ensures` ties the new state to the functions above and keeps `Valid()`.
- `scenarios.dfy` (module `Scenarios`): concrete runs with the outcome each must have. These are a drop between two lists, a drop of an item no list holds, and a change of group.

How the model represents the source:
- Control handles are `Id = int` and are compared by identity only.
- A dictionary that does not exist yet (`null`) is a map with no keys. That is sound because a created dictionary always holds `""`.
- `dragSources` enumerates its keys in insertion order. `GroupNameUpdated`'s `First()` runs in that order, so the field `sourceOrder` records it. `Registry.FirstHoldingIsOwnGroup` proves that in a consistent registry the result does not depend on the order: the only list holding a control is its own group's list.
- The drag payload reaches `Drop` already extracted, as an `Option<Item>`. `None` is the `null` that `GetData` returns.
- Where the source would throw, the model has a `requires`:
  - `Remove` needs the control's group to be a key. Otherwise `FirstOrDefault(...).Value` is null, at line 156.
  - `Drop` needs the target's group to be a key (line 189).
  - `Drop` needs a registered target to have a backing list.
  - `Drop`'s `Find` must meet no control without a backing list before it finds the holder (lines 202 and 205-206). This is `Move.DropDefined`.
- The class's callbacks (`IsDragSourceUpdated`, `IsDropTargetUpdated`, `DropTargetLoaded`) register through the corrected `Add`. It reads the dictionary after `InitializeDragDropCollections` has created it, so it never throws; see "## Findings". `Registry.AddedAsWritten` is `Add` as the code has it. Both scenarios give a control a `GroupName` before anything registers. That creates the dictionaries, so the runs do not depend on the correction.

Behaviour of the code that the model keeps as it is:
- `GroupNameUpdated` (lines 170-181) moves only the drag-source registration. A drop target keeps a stale entry in its old group, even after a later `Remove` under the new group (`Registry.RegroupLeavesDropTargetBehind`).
- `Remove` throws when the control's group is not a key, so the model's `Remove` requires that key. It is not a no-op there.
- `Drop` accepts a target only if it is registered as a drag source of its own group. The guard reads `dragSources`, not `dropTargets` (line 189).
- `Add` hooks `DropTarget_Loaded`/`DropTarget_Unloaded` for drag sources as well (lines 144-145). Loading a drag-only control therefore registers it in `dropTargets`, and unloading it never takes it out of `dragSources`. In the model, `DropTargetLoaded` and `DropTargetUnloaded` act on `dropTargets` for any control.

## Model

| member | source | states |
|---|---|---|
| Lists.IndexOf | DragAndDropBehavior.cs:157 | the first position of x in the list, or -1 exactly when x is absent; x does not occur before it |
| Lists.Remove | DragAndDropBehavior.cs:157 | List.Remove leaves a list without x as it is and otherwise makes it one shorter |
| Lists.RemoveMultiset | DragAndDropBehavior.cs:211 | List.Remove takes exactly one copy of x out of the list's multiset of items and adds nothing |
| Lists.RemoveAtIndexOf | DragAndDropBehavior.cs:157 | List.Remove is the list cut at IndexOf: the first occurrence goes and the order of the rest is kept |
| Lists.RemoveKeepsNoDuplicates | DragAndDropBehavior.cs:155-157 | removing from a duplicate-free list keeps it duplicate-free and leaves no x in it |
| Lists.OccursOnce | DragAndDropBehavior.cs:141-142 | in a duplicate-free list an element that is present occurs exactly once |
| Registry.WithGroup | DragAndDropBehavior.cs:75-86 | afterwards g is a key; every existing key keeps its list; a new key gets an empty list; an existing key leaves the dictionary unchanged |
| Registry.WithGroupIdempotent | DragAndDropBehavior.cs:75-86 | InitializeDragDropCollections run twice has the same effect as once, on the dictionaries and on the key order |
| Registry.WithKey | DragAndDropBehavior.cs:170-171 | the key order after inserting g holds exactly the old keys and g and stays duplicate-free; it is unchanged when g was a key, and otherwise g comes last |
| Registry.AddedAsWritten | DragAndDropBehavior.cs:132-142 | Add as written throws exactly when the dictionary its caller passed was not yet created or lacks the group; otherwise it has Add's effect |
| Registry.FirstRegistrationThrows | DragAndDropBehavior.cs:95-97 | registering the first control while no GroupName is set makes Add as written throw, while the corrected Add registers it under "" |
| Registry.Added | DragAndDropBehavior.cs:140-142 | Add keeps the keys; other groups are unchanged; afterwards c is in its group's list; an existing entry leaves the dictionary unchanged; otherwise c is appended; a duplicate-free list stays duplicate-free and holds c exactly once |
| Registry.Removed | DragAndDropBehavior.cs:155-157 | Remove keeps the keys; other groups are unchanged; the group's list loses its first c; an absent c changes nothing; a duplicate-free list no longer holds c |
| Registry.FirstHolding | DragAndDropBehavior.cs:175-178 | Where(...).First(): the first group in enumeration order whose list holds c, with no earlier group holding it; -1 exactly when no group does |
| Registry.Regrouped | DragAndDropBehavior.cs:175-181 | GroupNameUpdated on dragSources: nothing changes when no list holds c. Otherwise c leaves the first holding list, and g's list keeps every other member, with c appended unless it is already there. When g is the holding group, c leaves its first position and is appended again. Every other list is unchanged. When the lists involved are duplicate-free, c is in g's list exactly once, and when g is the holding group it moves to the end |
| Registry.AddedKeepsPartition | DragAndDropBehavior.cs:132-146 | Add keeps every list duplicate-free and holding only controls of that list's group |
| Registry.RemovedKeepsPartition | DragAndDropBehavior.cs:149-161 | Remove keeps every list duplicate-free and holding only controls of that list's group |
| Registry.FirstHoldingIsOwnGroup | DragAndDropBehavior.cs:175-178 | in a partitioned registry the first list holding c is the list of c's own group, whatever the enumeration order |
| Registry.RegroupedKeepsPartition | DragAndDropBehavior.cs:163-182 | after a change of group the drag-source lists are still partitioned by the controls' current GroupName |
| Registry.AddThenRemoveLeavesNoTrace | DragAndDropBehavior.cs:132-161 | registering a control and then unregistering it leaves it in no list |
| Registry.RegroupedMovesExactlyOnce | DragAndDropBehavior.cs:163-182 | a registered drag source whose group changes to g is in g's list exactly once and in no other list |
| Registry.WithGroupKeepsConsistent | DragAndDropBehavior.cs:75-86 | inserting a group into both dictionaries keeps the registry invariant |
| Registry.GroupIsKey | DragAndDropBehavior.cs:138-141 | once "" is a key, every control's group is a key of both dictionaries, so Add's lookup cannot miss |
| Registry.AddSourceKeepsConsistent | DragAndDropBehavior.cs:95-97 | registering a drag source keeps the registry invariant |
| Registry.AddTargetKeepsConsistent | DragAndDropBehavior.cs:116-119 | registering a drop target keeps the registry invariant |
| Registry.RemoveSourceKeepsConsistent | DragAndDropBehavior.cs:101-103 | unregistering a drag source keeps the registry invariant |
| Registry.RemoveTargetKeepsConsistent | DragAndDropBehavior.cs:122-124 | unregistering a drop target keeps the registry invariant |
| Registry.RegroupKeepsConsistent | DragAndDropBehavior.cs:175-181 | moving a control to an existing group, with its GroupName now that group, keeps the registry invariant |
| Registry.RegroupLeavesDropTargetBehind | DragAndDropBehavior.cs:170-181 | a drop target whose group changes stays in its old group's list, even after a Remove under the new group |
| Move.FindSource | DragAndDropBehavior.cs:205-206 | List.Find: the first drag source of the group whose list holds x, with no earlier one holding it; -1 exactly when none does |
| Move.FoundIsFirstHolder | DragAndDropBehavior.cs:205-206 | the control Find returns is at its own first position in the group's list, and no control before it holds x |
| Move.Transfer | DragAndDropBehavior.cs:211-212 | the source list loses its first x and the target list gains x at its end |
| Move.TransferLeavesOtherLists | DragAndDropBehavior.cs:211-212 | a move changes no backing list other than the source's and the target's |
| Move.TransferConservesItems | DragAndDropBehavior.cs:211-212 | a move keeps the combined multiset of the two lists |
| Move.DropOn | DragAndDropBehavior.cs:184-217 | each of the four checks rejects exactly under its condition, in order, and a rejection leaves every list unchanged; on success the source is the first holder in the group, differs from the target and holds x, the lists change by Transfer, and items are conserved |
| Behavior.DragAndDropBehavior.constructor | DragAndDropBehavior.cs:24-25 | no dictionaries yet, no GroupName, AllowDrop or ItemsSource set |
| Behavior.DragAndDropBehavior.AddGroup | DragAndDropBehavior.cs:170-173 | the group becomes a key of both dictionaries and of the key order; the invariant holds |
| Behavior.DragAndDropBehavior.InitializeDragDropCollections | DragAndDropBehavior.cs:75-86 | both dictionaries become WithGroup(old, ""); nothing else changes; the invariant holds |
| Behavior.DragAndDropBehavior.Add | DragAndDropBehavior.cs:132-146 | after initialisation the role's dictionary is Added(old, GroupName(c), c); the other dictionary only gains ""; the invariant holds |
| Behavior.DragAndDropBehavior.Remove | DragAndDropBehavior.cs:149-161 | the role's dictionary is Removed(old, GroupName(c), c); nothing else changes; the invariant holds |
| Behavior.DragAndDropBehavior.MoveToGroup | DragAndDropBehavior.cs:175-181 | dragSources becomes Regrouped(old, order, c, g) and c's GroupName becomes g; the invariant holds |
| Behavior.DragAndDropBehavior.GroupNameUpdated | DragAndDropBehavior.cs:163-182 | "" and g become keys of both dictionaries; dragSources is regrouped; dropTargets only gains keys; the invariant holds |
| Behavior.DragAndDropBehavior.IsDragSourceUpdated | DragAndDropBehavior.cs:89-107 | true is exactly Add and false exactly Remove on dragSources |
| Behavior.DragAndDropBehavior.IsDropTargetUpdated | DragAndDropBehavior.cs:110-128 | AllowDrop takes the flag; true is exactly Add and false exactly Remove on dropTargets |
| Behavior.DragAndDropBehavior.DropTargetLoaded | DragAndDropBehavior.cs:276-279 | exactly Add on dropTargets |
| Behavior.DragAndDropBehavior.DropTargetUnloaded | DragAndDropBehavior.cs:281-284 | exactly Remove on dropTargets |
| Behavior.DragAndDropBehavior.Drop | DragAndDropBehavior.cs:184-217 | the result and the backing lists are those of DropOn; the registries are never changed |
| Scenarios.DropBetweenTwoLists | DragAndDropBehavior.cs:184-217 | with S1 = [x, y] and T1 = [] in group "A", dropping x on T1 moves it from S1 (S1 = [y], T1 = [x]); then dropping z, which no list holds, is turned away |
| Scenarios.ChangeGroup | DragAndDropBehavior.cs:163-182 | a drag source registered under "" whose GroupName becomes "B" leaves the list of "" and is the only entry of "B" |

## Findings

| source | as written | input that shows it | evidently intended | confidence | as-written member | corrected member |
|---|---|---|---|---|---|---|
| DragAndDropBehavior.cs:95-97, 116-119, 132-141 | The callbacks pass the dictionary field to `Add` before `Add` calls `InitializeDragDropCollections`. When the dictionary is still null, the parameter stays null and `FirstOrDefault` throws. | The first control of a window gets `IsDragSource="True"` before any control has a `GroupName` set. | `Add` registers the control under its group, `""` by default, in the dictionary that initialisation just created. | high; not executed | Registry.AddedAsWritten, Registry.FirstRegistrationThrows | Behavior.DragAndDropBehavior.Add |

## Left out

- Pointer and gesture handling is not modelled: `OnLeftButtonDown`, `OnMouseMove`, the drag-distance thresholds and `DragDrop.DoDragDrop`. It is floating-point UI input handled by the host platform.
- `GetDataFromSource` is not modelled. It depends on hit-testing and visual-tree traversal, which the toolkit provides.
- The payload is not typed by reflection. The model receives it already extracted as an `Option<Item>`.
- The view refresh (`UpdateTarget`, lines 213-216) is not modelled. It does not touch the lists. When `ItemsSource` was not set through a Binding, `GetBindingExpressionBase` returns null and `UpdateTarget()` throws after both lists have already changed. The model's `Drop` ends with the two lists changed and raises no exception.
- A null `GroupName` is not modelled, because the model's group names are strings that cannot be null. In the code, `dragSources.Add(null, ...)` at line 171 throws `ArgumentNullException`.
- An `ItemsSource` that is not an `IList`, or is a fixed-size or read-only list, is not modelled. The casts and the `Contains`/`Remove`/`Add` calls at lines 202, 206 and 211-212 then throw. The model's backing lists are always mutable sequences.
- Event subscription and unsubscription (`+=`/`-=`) and the dependency-property getters and setters are left out. `GroupName` is read from the `groupName` field, with `""` as its default.
- `DragSource_Loaded` and `DragSource_Unloaded` are left out because nothing subscribes them.
- WPF runs a property-changed callback only when the value actually changes. The model lets any call happen.
- The drop-target lists' enumeration order is not recorded. Nothing reads it.
- Two controls sharing one `ItemsSource` list are not modelled. Each control has its own entry in `itemsSource`, so a list bound to two controls is not aliased.
- Behavior.DragAndDropBehavior.Drop: requires `DropDefined`. The code throws when the group key is missing, when a registered target has no `ItemsSource`, or when `Find` meets a control without one. The model does not describe those exceptions.
- Behavior.DragAndDropBehavior.Remove: requires the group key to be present. The code throws there, and the model does not describe that exception.

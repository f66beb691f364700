/**
 * DragAndDropBehavior: the two process-wide registries of drag sources and
 * drop targets, changed in place by the property-changed callbacks and the
 * lifecycle handlers, and the Drop handler that moves one item between two
 * backing lists.
 */
module Behavior {
  import opened Lists
  import opened Registry
  import opened Move

  /** Which of the two registries an Add or Remove works on. */
  datatype Role = DragSource | DropTarget

  /**
   * The static state of the behaviour, together with the per-control state
   * that its handlers read and write: each control's GroupName and AllowDrop
   * values and the contents of its ItemsSource list. The callbacks and the
   * Loaded handler register through the corrected Add, which never throws;
   * Registry.AddedAsWritten is the Add of the code as written.
   */
  class DragAndDropBehavior<Item(==)> {
    /** dragSources and dropTargets; a map with no keys stands for a dictionary not yet created. */
    var dragSources: Groups
    var dropTargets: Groups
    /** The keys of dragSources in the order the dictionary enumerates them. */
    var sourceOrder: seq<string>
    /** The GroupName attached to each control that has had it set. */
    var groupName: map<Id, string>
    /** The AllowDrop value of each control the behaviour has set it on. */
    var allowDrop: map<Id, bool>
    /** The backing list of each control whose ItemsSource is set. */
    var itemsSource: map<Id, seq<Item>>

    /** The object invariant: the registry is consistent (see Registry.Consistent). */
    ghost predicate Valid()
      reads this
    {
      Consistent(dragSources, sourceOrder, dropTargets, groupName)
    }

    /** GetGroupName. */
    function GroupName(c: Id): string
      reads this
    {
      GroupOf(groupName, c)
    }

    /** The registry Add and Remove are given for a role. */
    function Table(role: Role): Groups
      reads this
    {
      if role == DragSource then dragSources else dropTargets
    }

    /** The state before any control has used the behaviour. */
    constructor ()
      ensures Valid()
      ensures groupName == map[] && allowDrop == map[] && itemsSource == map[]
      ensures dragSources == map[] && dropTargets == map[] && sourceOrder == []
    {
      dragSources, dropTargets, sourceOrder := map[], map[], [];
      groupName, allowDrop, itemsSource := map[], map[], map[];
    }

    /** Makes g a key of both dictionaries, with an empty list where it was missing. */
    method AddGroup(g: string)
      requires Valid()
      modifies this
      ensures Valid()
      ensures groupName == old(groupName) && allowDrop == old(allowDrop) && itemsSource == old(itemsSource)
      ensures dragSources == WithGroup(old(dragSources), g)
      ensures dropTargets == WithGroup(old(dropTargets), g)
      ensures sourceOrder == WithKey(old(sourceOrder), g)
    {
      WithGroupKeepsConsistent(dragSources, sourceOrder, dropTargets, groupName, g);
      if g !in dragSources {
        dragSources := dragSources[g := []];
        sourceOrder := sourceOrder + [g];
      }
      if g !in dropTargets {
        dropTargets := dropTargets[g := []];
      }
    }

    /** Creates the dictionaries when needed and makes sure both hold the group "". */
    method InitializeDragDropCollections()
      requires Valid()
      modifies this
      ensures Valid()
      ensures groupName == old(groupName) && allowDrop == old(allowDrop) && itemsSource == old(itemsSource)
      ensures dragSources == WithGroup(old(dragSources), DefaultGroup)
      ensures dropTargets == WithGroup(old(dropTargets), DefaultGroup)
      ensures sourceOrder == WithKey(old(sourceOrder), DefaultGroup)
    {
      AddGroup(DefaultGroup);
    }

    /**
     * Registers control c in the list of its group in the registry of the
     * given role, unless that list already holds it. The registry is read
     * after InitializeDragDropCollections has created it (see
     * Registry.AddedAsWritten for the version that reads it before).
     */
    method Add(role: Role, c: Id)
      requires Valid()
      modifies this
      ensures Valid()
      ensures groupName == old(groupName) && allowDrop == old(allowDrop) && itemsSource == old(itemsSource)
      ensures GroupName(c) in WithGroup(old(Table(role)), DefaultGroup)
      ensures Table(role) == Added(WithGroup(old(Table(role)), DefaultGroup), GroupName(c), c)
      ensures role == DragSource ==> dropTargets == WithGroup(old(dropTargets), DefaultGroup)
      ensures role == DropTarget ==> dragSources == WithGroup(old(dragSources), DefaultGroup)
      ensures sourceOrder == WithKey(old(sourceOrder), DefaultGroup)
    {
      InitializeDragDropCollections();
      var g := GroupName(c);
      GroupIsKey(dragSources, sourceOrder, dropTargets, groupName, c);
      if role == DragSource {
        AddSourceKeepsConsistent(dragSources, sourceOrder, dropTargets, groupName, c);
        if c !in dragSources[g] {
          dragSources := dragSources[g := dragSources[g] + [c]];
        }
      } else {
        AddTargetKeepsConsistent(dragSources, sourceOrder, dropTargets, groupName, c);
        if c !in dropTargets[g] {
          dropTargets := dropTargets[g := dropTargets[g] + [c]];
        }
      }
    }

    /** Takes control c out of the list of its group in the registry of the given role. */
    method Remove(role: Role, c: Id)
      requires Valid()
      requires GroupName(c) in Table(role)
      modifies this
      ensures Valid()
      ensures groupName == old(groupName) && allowDrop == old(allowDrop) && itemsSource == old(itemsSource)
      ensures Table(role) == Removed(old(Table(role)), GroupName(c), c)
      ensures role == DragSource ==> dropTargets == old(dropTargets)
      ensures role == DropTarget ==> dragSources == old(dragSources)
      ensures sourceOrder == old(sourceOrder)
    {
      var g := GroupName(c);
      if role == DragSource {
        RemoveSourceKeepsConsistent(dragSources, sourceOrder, dropTargets, groupName, c);
        if c in dragSources[g] {
          dragSources := dragSources[g := Lists.Remove(dragSources[g], c)];
        }
      } else {
        RemoveTargetKeepsConsistent(dragSources, sourceOrder, dropTargets, groupName, c);
        if c in dropTargets[g] {
          dropTargets := dropTargets[g := Lists.Remove(dropTargets[g], c)];
        }
      }
    }

    /**
     * Sets c's GroupName to g, an existing group, and moves c from the first
     * drag-source list that holds it (in key order) to g's list.
     */
    method MoveToGroup(c: Id, g: string)
      requires Valid()
      requires g in dragSources && g in dropTargets
      modifies this
      ensures Valid()
      ensures groupName == old(groupName)[c := g]
      ensures sourceOrder == old(sourceOrder) && dropTargets == old(dropTargets)
      ensures dragSources == Regrouped(old(dragSources), sourceOrder, c, g)
      ensures allowDrop == old(allowDrop) && itemsSource == old(itemsSource)
    {
      RegroupKeepsConsistent(dragSources, sourceOrder, dropTargets, groupName, c, g);
      var sources := dragSources;
      var i := FirstHolding(sourceOrder, sources, c);
      if i != -1 {
        var from := sourceOrder[i];
        sources := sources[from := Lists.Remove(sources[from], c)];
        if c !in sources[g] {
          sources := sources[g := sources[g] + [c]];
        }
      }
      dragSources, groupName := sources, groupName[c := g];
    }

    /**
     * GroupName of control c becomes g: g becomes a key of both registries,
     * and c moves from the first drag-source list that holds it to the
     * drag-source list of g. The drop-target lists are left as they are.
     */
    method GroupNameUpdated(c: Id, g: string)
      requires Valid()
      modifies this
      ensures Valid()
      ensures groupName == old(groupName)[c := g]
      ensures sourceOrder == WithKey(WithKey(old(sourceOrder), DefaultGroup), g)
      ensures dropTargets == WithGroup(WithGroup(old(dropTargets), DefaultGroup), g)
      ensures dragSources == Regrouped(WithGroup(WithGroup(old(dragSources), DefaultGroup), g), sourceOrder, c, g)
      ensures allowDrop == old(allowDrop) && itemsSource == old(itemsSource)
    {
      InitializeDragDropCollections();
      AddGroup(g);
      MoveToGroup(c, g);
    }

    /** The host binds control c's ItemsSource to the list items; the registries do not change. */
    method SetItemsSource(c: Id, items: seq<Item>)
      requires Valid()
      modifies this
      ensures Valid()
      ensures itemsSource == old(itemsSource)[c := items]
      ensures groupName == old(groupName) && allowDrop == old(allowDrop)
      ensures dragSources == old(dragSources) && dropTargets == old(dropTargets) && sourceOrder == old(sourceOrder)
    {
      itemsSource := itemsSource[c := items];
    }

    /** The IsDragSource callback: enabled registers c as a drag source, disabled unregisters it. */
    method IsDragSourceUpdated(c: Id, enabled: bool)
      requires Valid()
      requires !enabled ==> GroupName(c) in dragSources
      modifies this
      ensures Valid()
      ensures groupName == old(groupName) && allowDrop == old(allowDrop) && itemsSource == old(itemsSource)
      ensures enabled ==>
        && dragSources == Added(WithGroup(old(dragSources), DefaultGroup), GroupName(c), c)
        && dropTargets == WithGroup(old(dropTargets), DefaultGroup)
        && sourceOrder == WithKey(old(sourceOrder), DefaultGroup)
      ensures !enabled ==>
        && dragSources == Removed(old(dragSources), GroupName(c), c)
        && dropTargets == old(dropTargets)
        && sourceOrder == old(sourceOrder)
    {
      if enabled {
        Add(DragSource, c);
      } else {
        Remove(DragSource, c);
      }
    }

    /**
     * The IsDropTarget callback: AllowDrop takes the flag's value; enabled
     * registers c as a drop target, disabled unregisters it.
     */
    method IsDropTargetUpdated(c: Id, enabled: bool)
      requires Valid()
      requires !enabled ==> GroupName(c) in dropTargets
      modifies this
      ensures Valid()
      ensures groupName == old(groupName) && itemsSource == old(itemsSource)
      ensures allowDrop == old(allowDrop)[c := enabled]
      ensures enabled ==>
        && dropTargets == Added(WithGroup(old(dropTargets), DefaultGroup), GroupName(c), c)
        && dragSources == WithGroup(old(dragSources), DefaultGroup)
        && sourceOrder == WithKey(old(sourceOrder), DefaultGroup)
      ensures !enabled ==>
        && dropTargets == Removed(old(dropTargets), GroupName(c), c)
        && dragSources == old(dragSources)
        && sourceOrder == old(sourceOrder)
    {
      allowDrop := allowDrop[c := enabled];
      if enabled {
        Add(DropTarget, c);
      } else {
        Remove(DropTarget, c);
      }
    }

    /** The Loaded handler Add hooks up: registers c as a drop target. */
    method DropTargetLoaded(c: Id)
      requires Valid()
      modifies this
      ensures Valid()
      ensures groupName == old(groupName) && allowDrop == old(allowDrop) && itemsSource == old(itemsSource)
      ensures dropTargets == Added(WithGroup(old(dropTargets), DefaultGroup), GroupName(c), c)
      ensures dragSources == WithGroup(old(dragSources), DefaultGroup)
      ensures sourceOrder == WithKey(old(sourceOrder), DefaultGroup)
    {
      Add(DropTarget, c);
    }

    /** The Unloaded handler Add hooks up: unregisters c as a drop target. */
    method DropTargetUnloaded(c: Id)
      requires Valid()
      requires GroupName(c) in dropTargets
      modifies this
      ensures Valid()
      ensures groupName == old(groupName) && allowDrop == old(allowDrop) && itemsSource == old(itemsSource)
      ensures dropTargets == Removed(old(dropTargets), GroupName(c), c)
      ensures dragSources == old(dragSources) && sourceOrder == old(sourceOrder)
    {
      Remove(DropTarget, c);
    }

    /**
     * The Drop handler on control target, with the payload already taken
     * out of the drag data. It changes at most two backing lists and never
     * the registries.
     */
    method Drop(target: Id, payload: Option<Item>) returns (result: DropResult)
      requires Valid()
      requires DropDefined(dragSources, groupName, itemsSource, target, payload)
      modifies this
      ensures Valid()
      ensures groupName == old(groupName) && allowDrop == old(allowDrop)
      ensures (result, itemsSource) == DropOn(old(dragSources), old(groupName), old(itemsSource), target, payload)
      ensures dragSources == old(dragSources) && dropTargets == old(dropTargets) && sourceOrder == old(sourceOrder)
    {
      var g := GroupName(target);
      if target !in dragSources[g] {
        return NotRegistered;
      }
      if payload.None? {
        return NoPayload;
      }
      var x := payload.value;
      if x in itemsSource[target] {
        return AlreadyPresent;
      }
      var i := FindSource(dragSources[g], itemsSource, x);
      if i == -1 {
        return NoSource;
      }
      var source := dragSources[g][i];
      itemsSource := itemsSource[source := Lists.Remove(itemsSource[source], x)];
      itemsSource := itemsSource[target := itemsSource[target] + [x]];
      result := Moved(source);
    }
  }
}

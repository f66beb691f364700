/**
 * The group registry of DragAndDropBehavior, as values: a dictionary from a
 * group name to the ordered list of containers registered in that group,
 * and the list updates that InitializeDragDropCollections, Add, Remove and
 * GroupNameUpdated make to it. The class in behavior.dfy applies these to
 * its dragSources and dropTargets fields.
 */
module Registry {
  import opened Lists

  datatype Option<T> = None | Some(value: T)

  /** Handle of an ItemsControl; only its identity is ever compared. */
  type Id = int

  /** A Dictionary<String, List<ItemsControl>>: group name to registered containers. */
  type Groups = map<string, seq<Id>>

  /** The group of every container whose GroupName was never set. */
  const DefaultGroup: string := ""

  /** GetGroupName: the container's attached GroupName, "" when it was never set. */
  function GroupOf(names: map<Id, string>, c: Id): string {
    if c in names then names[c] else DefaultGroup
  }

  /**
   * dictionary.Add(g, new List()) guarded by !dictionary.Any(p => p.Key == g):
   * afterwards g is a key, and every key that was there keeps its list.
   */
  function WithGroup(d: Groups, g: string): (r: Groups)
    ensures g in r && r.Keys == d.Keys + {g}
    ensures forall k :: k in d ==> r[k] == d[k]
    ensures g !in d ==> r[g] == []
    ensures g in d ==> r == d
  {
    if g in d then d else d[g := []]
  }

  /** The enumeration order of a dictionary's keys: a key added later comes last. */
  function WithKey(order: seq<string>, g: string): (r: seq<string>)
    ensures forall k :: k in r <==> k in order || k == g
    ensures NoDuplicates(order) ==> NoDuplicates(r)
    ensures g in order ==> r == order
    ensures g !in order ==> r == order + [g]
  {
    if g in order then order
    else
      assert forall i :: 0 <= i < |order| ==> order[i] != g;
      order + [g]
  }

  /** order lists the keys of d, each once, in the dictionary's enumeration order. */
  predicate Enumerates(order: seq<string>, d: Groups) {
    && NoDuplicates(order)
    && (forall k :: k in order ==> k in d)
    && (forall k :: k in d ==> k in order)
  }

  /**
   * InitializeDragDropCollections is idempotent: inserting a group that is
   * already there changes neither the dictionary nor its key order.
   */
  lemma WithGroupIdempotent(d: Groups, order: seq<string>, g: string)
    ensures WithGroup(WithGroup(d, g), g) == WithGroup(d, g)
    ensures WithKey(WithKey(order, g), g) == WithKey(order, g)
  {
  }

  /**
   * The list update of Add: append c to group g's list unless the list
   * already Contains it.
   */
  function Added(d: Groups, g: string, c: Id): (r: Groups)
    requires g in d
    ensures r.Keys == d.Keys
    ensures forall k :: k in d && k != g ==> r[k] == d[k]
    ensures c in r[g]
    ensures c in d[g] ==> r == d
    ensures c !in d[g] ==> r[g] == d[g] + [c]
    ensures NoDuplicates(d[g]) ==> NoDuplicates(r[g]) && multiset(r[g])[c] == 1
  {
    if c in d[g] then
      assert NoDuplicates(d[g]) ==> multiset(d[g])[c] == 1 by {
        if NoDuplicates(d[g]) {
          OccursOnce(d[g], c);
        }
      }
      d
    else
      var r := d[g := d[g] + [c]];
      assert NoDuplicates(d[g]) ==> NoDuplicates(r[g]) && multiset(r[g])[c] == 1 by {
        if NoDuplicates(d[g]) {
          AppendKeepsNoDuplicates(d[g], c);
          OccursOnce(r[g], c);
        }
      }
      r
  }

  /**
   * Add as written: it searches the dictionary its caller handed in, read
   * before InitializeDragDropCollections runs. A dictionary not created yet
   * (no keys: a created one always holds "") stays null for the search and
   * FirstOrDefault throws; so does a missing group, whose Value is null.
   * None stands for the exception. Otherwise the search sees the created
   * dictionary, which InitializeDragDropCollections changed in place.
   */
  function AddedAsWritten(passed: Groups, g: string, c: Id): (r: Option<Groups>)
    ensures r.None? <==> passed == map[] || g !in WithGroup(passed, DefaultGroup)
    ensures r.Some? ==> r.value == Added(WithGroup(passed, DefaultGroup), g, c)
  {
    if passed == map[] then None
    else
      var d := WithGroup(passed, DefaultGroup);
      if g in d then Some(Added(d, g, c)) else None
  }

  /**
   * The first container ever registered, with no GroupName set anywhere
   * yet, makes Add as written throw, while Add reading the dictionary after
   * InitializeDragDropCollections registers it in the group "".
   */
  lemma FirstRegistrationThrows(c: Id)
    ensures AddedAsWritten(map[], GroupOf(map[], c), c) == None
    ensures Added(WithGroup(map[], DefaultGroup), GroupOf(map[], c), c)[DefaultGroup] == [c]
  {
  }

  /**
   * The list update of Remove: when group g's list Contains c, its first
   * occurrence is taken out.
   */
  function Removed(d: Groups, g: string, c: Id): (r: Groups)
    requires g in d
    ensures r.Keys == d.Keys
    ensures forall k :: k in d && k != g ==> r[k] == d[k]
    ensures r[g] == Remove(d[g], c)
    ensures c !in d[g] ==> r == d
    ensures NoDuplicates(d[g]) ==> NoDuplicates(r[g]) && c !in r[g]
  {
    if c in d[g] then
      var r := d[g := Remove(d[g], c)];
      assert NoDuplicates(d[g]) ==> NoDuplicates(r[g]) && c !in r[g] by {
        if NoDuplicates(d[g]) {
          RemoveKeepsNoDuplicates(d[g], c);
        }
      }
      r
    else
      d
  }

  /**
   * dragSources.Where(p => p.Value.Any(k => k == c)).First(): the position,
   * in enumeration order, of the first group whose list holds c, or -1 when
   * no list holds it.
   */
  function FirstHolding(order: seq<string>, d: Groups, c: Id): (i: int)
    requires forall k :: k in order ==> k in d
    ensures -1 <= i < |order|
    ensures 0 <= i ==> c in d[order[i]]
    ensures forall j :: 0 <= j < |order| && (i == -1 || j < i) ==> c !in d[order[j]]
  {
    if order == [] then -1
    else if c in d[order[0]] then 0
    else
      var k := FirstHolding(order[1..], d, c);
      if k == -1 then -1 else k + 1
  }

  /**
   * The change GroupNameUpdated makes to dragSources once group g exists:
   * c leaves the first list that holds it and is appended to g's list
   * unless that list already holds it. When no list holds c, nothing changes.
   */
  function Regrouped(d: Groups, order: seq<string>, c: Id, g: string): (r: Groups)
    requires g in d
    requires forall k :: k in order ==> k in d
    ensures r.Keys == d.Keys
    ensures FirstHolding(order, d, c) == -1 ==> r == d
    ensures 0 <= FirstHolding(order, d, c) ==>
      var from := order[FirstHolding(order, d, c)];
      && c in r[g]
      && (from != g ==> r[g] == (if c in d[g] then d[g] else d[g] + [c]))
      && (from == g ==> var rest := Remove(d[g], c); r[g] == (if c in rest then rest else rest + [c]))
      && (from != g ==> r[from] == Remove(d[from], c))
      && (forall k :: k in d && k != from && k != g ==> r[k] == d[k])
      && (NoDuplicates(d[from]) && NoDuplicates(d[g]) ==>
            && NoDuplicates(r[g]) && multiset(r[g])[c] == 1
            && (from == g ==> r[g] == Remove(d[g], c) + [c])
            && (from != g ==> NoDuplicates(r[from]) && c !in r[from]))
  {
    var i := FirstHolding(order, d, c);
    if i == -1 then d else Added(Removed(d, order[i], c), g, c)
  }

  /**
   * The registry's shape: every list is duplicate-free and holds only
   * containers whose current GroupName is that list's key.
   */
  predicate Partitioned(d: Groups, names: map<Id, string>) {
    forall k :: k in d ==> NoDuplicates(d[k]) && forall c :: c in d[k] ==> GroupOf(names, c) == k
  }

  /** Add keeps the registry partitioned by group. */
  lemma AddedKeepsPartition(d: Groups, names: map<Id, string>, c: Id)
    requires Partitioned(d, names) && GroupOf(names, c) in d
    ensures Partitioned(Added(d, GroupOf(names, c), c), names)
  {
    var g := GroupOf(names, c);
    var r := Added(d, g, c);
    forall k | k in r ensures NoDuplicates(r[k]) && forall x :: x in r[k] ==> GroupOf(names, x) == k {
      if k == g && c !in d[g] {
        assert forall x :: x in r[k] ==> x in d[k] || x == c;
      }
    }
  }

  /** Remove keeps the registry partitioned by group. */
  lemma RemovedKeepsPartition(d: Groups, names: map<Id, string>, g: string, c: Id)
    requires Partitioned(d, names) && g in d
    ensures Partitioned(Removed(d, g, c), names)
  {
    var r := Removed(d, g, c);
    forall k | k in r ensures NoDuplicates(r[k]) && forall x :: x in r[k] ==> GroupOf(names, x) == k {
      if k == g {
        forall x | x in r[k] ensures x in d[k] {
          RemoveKeepsOnlyOld(d[k], c, x);
        }
      }
    }
  }

  /**
   * In a partitioned registry the only list that can hold c is the list of
   * c's own group, so the enumeration order does not decide which list
   * GroupNameUpdated takes c out of.
   */
  lemma FirstHoldingIsOwnGroup(d: Groups, order: seq<string>, names: map<Id, string>, c: Id)
    requires Partitioned(d, names) && Enumerates(order, d)
    requires GroupOf(names, c) in d && c in d[GroupOf(names, c)]
    ensures 0 <= FirstHolding(order, d, c) && order[FirstHolding(order, d, c)] == GroupOf(names, c)
  {
    var g := GroupOf(names, c);
    var j :| 0 <= j < |order| && order[j] == g;
    var i := FirstHolding(order, d, c);
    assert 0 <= i;
  }

  /** Changing the GroupName of a container that no list holds keeps the registry partitioned. */
  lemma RenameUnlistedKeepsPartition(d: Groups, names: map<Id, string>, c: Id, g: string)
    requires Partitioned(d, names)
    requires forall k :: k in d ==> c !in d[k]
    ensures Partitioned(d, names[c := g])
  {
    forall k, x | k in d && x in d[k] ensures GroupOf(names[c := g], x) == k {
      assert x != c;
    }
  }

  /**
   * Regrouping a container to group g keeps the registry partitioned once
   * the container's GroupName reads g.
   */
  lemma RegroupedKeepsPartition(d: Groups, order: seq<string>, names: map<Id, string>, c: Id, g: string)
    requires Partitioned(d, names) && Enumerates(order, d) && g in d
    ensures Partitioned(Regrouped(d, order, c, g), names[c := g])
  {
    var i := FirstHolding(order, d, c);
    if i == -1 {
      forall k | k in d ensures c !in d[k] {
        assert k in order;
      }
      RenameUnlistedKeepsPartition(d, names, c, g);
    } else {
      var from := order[i];
      var taken := Removed(d, from, c);
      RemovedKeepsPartition(d, names, from, c);
      forall k | k in taken ensures c !in taken[k] {
        if k != from {
          assert GroupOf(names, c) == from;
        }
      }
      RenameUnlistedKeepsPartition(taken, names, c, g);
      AddedKeepsPartition(taken, names[c := g], c);
    }
  }

  /**
   * Registering a container in its group and then unregistering it from
   * that group leaves it in no list of a partitioned registry.
   */
  lemma AddThenRemoveLeavesNoTrace(d: Groups, names: map<Id, string>, c: Id)
    requires Partitioned(d, names) && GroupOf(names, c) in d
    ensures var g := GroupOf(names, c);
      forall k :: k in d ==> c !in Removed(Added(d, g, c), g, c)[k]
  {
    var g := GroupOf(names, c);
    AddedKeepsPartition(d, names, c);
  }

  /**
   * Changing the group of a registered container to g leaves it exactly
   * once in g's list and in no other list: it is never in two groups.
   */
  lemma RegroupedMovesExactlyOnce(d: Groups, order: seq<string>, names: map<Id, string>, c: Id, g: string)
    requires Partitioned(d, names) && Enumerates(order, d) && g in d
    requires GroupOf(names, c) in d && c in d[GroupOf(names, c)]
    ensures var r := Regrouped(d, order, c, g);
      && multiset(r[g])[c] == 1
      && forall k :: k in r && k != g ==> c !in r[k]
  {
    FirstHoldingIsOwnGroup(d, order, names, c);
    RegroupedKeepsPartition(d, order, names, c, g);
    var r := Regrouped(d, order, c, g);
    OccursOnce(r[g], c);
  }

  /**
   * The invariant the registry keeps: the key order matches dragSources;
   * every drag source is listed once and only under its current group;
   * drop-target lists hold no duplicates; and every GroupName that was set
   * is a key of both dictionaries.
   */
  predicate Consistent(sources: Groups, order: seq<string>, targets: Groups, names: map<Id, string>) {
    && Enumerates(order, sources)
    && Partitioned(sources, names)
    && (forall k :: k in targets ==> NoDuplicates(targets[k]))
    && (forall c :: c in names ==> names[c] in sources && names[c] in targets)
  }

  /** Inserting a group with an empty list into both dictionaries keeps the registry consistent. */
  lemma WithGroupKeepsConsistent(sources: Groups, order: seq<string>, targets: Groups, names: map<Id, string>, g: string)
    requires Consistent(sources, order, targets, names)
    ensures Consistent(WithGroup(sources, g), WithKey(order, g), WithGroup(targets, g), names)
  {
  }

  /** In a consistent registry with the group "" present, every container's group is a key of both dictionaries. */
  lemma GroupIsKey(sources: Groups, order: seq<string>, targets: Groups, names: map<Id, string>, c: Id)
    requires Consistent(sources, order, targets, names)
    requires DefaultGroup in sources && DefaultGroup in targets
    ensures GroupOf(names, c) in sources && GroupOf(names, c) in targets
  {
  }

  /**
   * Moving c to the drag-source list of an existing group g, with c's
   * GroupName set to g, keeps the registry consistent.
   */
  lemma RegroupKeepsConsistent(sources: Groups, order: seq<string>, targets: Groups, names: map<Id, string>, c: Id, g: string)
    requires Consistent(sources, order, targets, names)
    requires g in sources && g in targets
    ensures Consistent(Regrouped(sources, order, c, g), order, targets, names[c := g])
  {
    RegroupedKeepsPartition(sources, order, names, c, g);
  }

  /** Registering c in the drag-source list of its own group keeps the registry consistent. */
  lemma AddSourceKeepsConsistent(sources: Groups, order: seq<string>, targets: Groups, names: map<Id, string>, c: Id)
    requires Consistent(sources, order, targets, names)
    requires GroupOf(names, c) in sources
    ensures Consistent(Added(sources, GroupOf(names, c), c), order, targets, names)
  {
    AddedKeepsPartition(sources, names, c);
  }

  /** Registering c in the drop-target list of its own group keeps the registry consistent. */
  lemma AddTargetKeepsConsistent(sources: Groups, order: seq<string>, targets: Groups, names: map<Id, string>, c: Id)
    requires Consistent(sources, order, targets, names)
    requires GroupOf(names, c) in targets
    ensures Consistent(sources, order, Added(targets, GroupOf(names, c), c), names)
  {
  }

  /** Unregistering c from the drag-source list of its own group keeps the registry consistent. */
  lemma RemoveSourceKeepsConsistent(sources: Groups, order: seq<string>, targets: Groups, names: map<Id, string>, c: Id)
    requires Consistent(sources, order, targets, names)
    requires GroupOf(names, c) in sources
    ensures Consistent(Removed(sources, GroupOf(names, c), c), order, targets, names)
  {
    RemovedKeepsPartition(sources, names, GroupOf(names, c), c);
  }

  /** Unregistering c from the drop-target list of its own group keeps the registry consistent. */
  lemma RemoveTargetKeepsConsistent(sources: Groups, order: seq<string>, targets: Groups, names: map<Id, string>, c: Id)
    requires Consistent(sources, order, targets, names)
    requires GroupOf(names, c) in targets
    ensures Consistent(sources, order, Removed(targets, GroupOf(names, c), c), names)
  {
  }

  /**
   * GroupNameUpdated leaves the drop-target lists alone, so a drop target
   * moved out of its group stays registered there: a later Remove looks in
   * the new group's list and the old registration survives.
   */
  lemma RegroupLeavesDropTargetBehind(targets: Groups, names: map<Id, string>, c: Id, g: string)
    requires GroupOf(names, c) in targets && c in targets[GroupOf(names, c)]
    requires GroupOf(names, c) != g
    ensures var t := Removed(WithGroup(targets, g), g, c);
      c in t[GroupOf(names, c)] && GroupOf(names[c := g], c) == g
  {
  }
}

/**
 * The move protocol of Drop: turn the drop away unless the target is a
 * drag source of its own group, the payload is present and the target
 * does not hold it yet; then find the first drag source of that group
 * whose backing list holds the payload, take the payload out of that list
 * and append it to the target's list.
 */
module Move {
  import opened Lists
  import opened Registry

  /** How a drop ended: the check that turned it away, or the source the item left. */
  datatype DropResult =
    | NotRegistered    // the target is not in dragSources of its own group
    | NoPayload        // the drag data held no item of the target's element type
    | AlreadyPresent   // the target's backing list already contains the item
    | NoSource         // no drag source of the group holds the item
    | Moved(source: Id)

  /**
   * The search Find(p => ((IList)p.ItemsSource).Contains(x)) over ids runs
   * without meeting a control that has no backing list: every control it
   * visits, up to and including the first one holding x, has one.
   */
  predicate Searchable<Item(==)>(ids: seq<Id>, lists: map<Id, seq<Item>>, x: Item) {
    ids == [] || (ids[0] in lists && (x in lists[ids[0]] || Searchable(ids[1..], lists, x)))
  }

  /**
   * List.Find over the drag sources of a group: the position of the first
   * control whose backing list contains x, or -1 when none does.
   */
  function FindSource<Item(==)>(ids: seq<Id>, lists: map<Id, seq<Item>>, x: Item): (i: int)
    requires Searchable(ids, lists, x)
    ensures -1 <= i < |ids|
    ensures 0 <= i ==> ids[i] in lists && x in lists[ids[i]]
    ensures forall j :: 0 <= j < |ids| && (i == -1 || j < i) ==> ids[j] in lists && x !in lists[ids[j]]
  {
    if ids == [] then -1
    else if x in lists[ids[0]] then 0
    else
      var k := FindSource(ids[1..], lists, x);
      if k == -1 then -1 else k + 1
  }

  /**
   * What Drop needs in order not to throw: the target's group is a key of
   * dragSources; a registered target has a backing list; and when the
   * search runs, it meets no control without one.
   */
  predicate DropDefined<Item(==)>(sources: Groups, names: map<Id, string>, lists: map<Id, seq<Item>>,
                                  target: Id, payload: Option<Item>)
  {
    var g := GroupOf(names, target);
    && g in sources
    && (target in sources[g] ==>
          && target in lists
          && (payload.Some? && payload.value !in lists[target] ==> Searchable(sources[g], lists, payload.value)))
  }

  /**
   * The two list updates of a successful drop: the first occurrence of x
   * leaves s's list and x is appended to t's list; no other list changes
   * and no item is created or lost.
   */
  function Transfer<Item(==)>(lists: map<Id, seq<Item>>, s: Id, t: Id, x: Item): (r: map<Id, seq<Item>>)
    requires s in lists && t in lists && s != t
    ensures r.Keys == lists.Keys
    ensures r[s] == Remove(lists[s], x)
    ensures r[t] == lists[t] + [x]
  {
    lists[s := Remove(lists[s], x)][t := lists[t] + [x]]
  }

  /** A transfer changes no backing list other than the source's and the target's. */
  lemma TransferLeavesOtherLists<Item>(lists: map<Id, seq<Item>>, s: Id, t: Id, x: Item, p: Id)
    requires s in lists && t in lists && s != t
    requires p in lists && p != s && p != t
    ensures Transfer(lists, s, t, x)[p] == lists[p]
  {
  }

  /** A transfer of an item the source holds neither creates nor loses an item. */
  lemma TransferConservesItems<Item>(lists: map<Id, seq<Item>>, s: Id, t: Id, x: Item)
    requires s in lists && t in lists && s != t && x in lists[s]
    ensures var r := Transfer(lists, s, t, x);
      multiset(r[s]) + multiset(r[t]) == multiset(lists[s]) + multiset(lists[t])
  {
    var r := Transfer(lists, s, t, x);
    RemoveMultiset(lists[s], x);
    assert multiset(r[t]) == multiset(lists[t]) + multiset{x};
  }

  /** The control List.Find returns is the first holder of x, at its first position. */
  lemma FoundIsFirstHolder<Item>(ids: seq<Id>, lists: map<Id, seq<Item>>, x: Item)
    requires Searchable(ids, lists, x) && 0 <= FindSource(ids, lists, x)
    ensures var s := ids[FindSource(ids, lists, x)];
      && IndexOf(ids, s) == FindSource(ids, lists, x)
      && forall p :: p in ids[..IndexOf(ids, s)] ==> p in lists && x !in lists[p]
  {
    var i := FindSource(ids, lists, x);
    var k := IndexOf(ids, ids[i]);
    forall p | p in ids[..k] ensures p in lists && x !in lists[p] {
      var j :| 0 <= j < k && ids[..k][j] == p;
      assert ids[j] == p;
    }
  }

  /**
   * The effect of Drop on the backing lists of all containers. Each check
   * that turns the drop away leaves every list as it was; a move takes the
   * first occurrence of the item out of the first drag source of the
   * target's group that holds it and appends the item to the target's list.
   */
  function DropOn<Item(==)>(sources: Groups, names: map<Id, string>, lists: map<Id, seq<Item>>,
                            target: Id, payload: Option<Item>): (r: (DropResult, map<Id, seq<Item>>))
    requires DropDefined(sources, names, lists, target, payload)
    ensures var g := GroupOf(names, target);
      && (r.0 == NotRegistered <==> target !in sources[g])
      && (r.0 == NoPayload <==> target in sources[g] && payload.None?)
      && (r.0 == AlreadyPresent <==> target in sources[g] && payload.Some? && payload.value in lists[target])
      && (r.0 == NoSource <==>
            && target in sources[g] && payload.Some? && payload.value !in lists[target]
            && forall p :: p in sources[g] ==> p in lists && payload.value !in lists[p])
    ensures !r.0.Moved? ==> r.1 == lists
    ensures r.0.Moved? ==>
      && payload.Some? && target in lists && payload.value !in lists[target]
      && r.0.source in sources[GroupOf(names, target)] && r.0.source in lists
      && payload.value in lists[r.0.source] && r.0.source != target
    ensures r.0.Moved? ==>
      var g, s, x := GroupOf(names, target), r.0.source, payload.value;
      && (forall p :: p in sources[g][..IndexOf(sources[g], s)] ==> p in lists && x !in lists[p])
      && r.1 == Transfer(lists, s, target, x)
      && multiset(r.1[s]) + multiset(r.1[target]) == multiset(lists[s]) + multiset(lists[target])
  {
    var g := GroupOf(names, target);
    if target !in sources[g] then (NotRegistered, lists)
    else if payload.None? then (NoPayload, lists)
    else if payload.value in lists[target] then (AlreadyPresent, lists)
    else
      var x := payload.value;
      var i := FindSource(sources[g], lists, x);
      if i == -1 then
        assert forall p :: p in sources[g] ==> p in lists && x !in lists[p];
        (NoSource, lists)
      else
        FoundIsFirstHolder(sources[g], lists, x);
        var s := sources[g][i];
        TransferConservesItems(lists, s, target, x);
        (Moved(s), Transfer(lists, s, target, x))
  }
}

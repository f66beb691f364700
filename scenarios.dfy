/**
 * Concrete runs of the behaviour: the registration calls a window would
 * make, followed by drops, with the outcome each run must have.
 */
module Scenarios {
  import opened Registry
  import opened Move
  import opened Behavior

  /**
   * Controls 1 and 2 get GroupName "A" before either is registered; this
   * creates the dictionaries, so the registrations that follow do not
   * depend on the correction made to Add.
   */
  method JoinGroupA() returns (b: DragAndDropBehavior<string>)
    ensures fresh(b) && b.Valid()
    ensures b.groupName == map[1 := "A", 2 := "A"] && b.itemsSource == map[]
    ensures "A" in b.dragSources && b.dragSources["A"] == []
  {
    b := new DragAndDropBehavior<string>();
    b.GroupNameUpdated(1, "A");
    b.GroupNameUpdated(2, "A");
  }

  /** Controls 1 and 2 of group "A" become drag sources, in that order. */
  method RegisterSources(b: DragAndDropBehavior<string>)
    requires b.Valid()
    requires b.groupName == map[1 := "A", 2 := "A"]
    requires "A" in b.dragSources && b.dragSources["A"] == []
    modifies b
    ensures b.Valid()
    ensures b.groupName == old(b.groupName) && b.itemsSource == old(b.itemsSource)
    ensures "A" in b.dragSources && b.dragSources["A"] == [1, 2]
  {
    b.IsDragSourceUpdated(1, true);
    assert b.dragSources["A"] == [1];
    b.IsDragSourceUpdated(2, true);
  }

  /**
   * The registration a window makes for group "A": S1 (id 1) is a drag
   * source bound to [x, y]; T1 (id 2) is a drop target and a drag source
   * bound to [].
   */
  method RegisterGroupA() returns (b: DragAndDropBehavior<string>)
    ensures fresh(b) && b.Valid()
    ensures b.groupName == map[1 := "A", 2 := "A"]
    ensures "A" in b.dragSources && b.dragSources["A"] == [1, 2]
    ensures b.itemsSource == map[1 := ["x", "y"], 2 := []]
  {
    b := JoinGroupA();
    RegisterSources(b);
    b.IsDropTargetUpdated(2, true);
    b.SetItemsSource(1, ["x", "y"]);
    b.SetItemsSource(2, []);
  }

  /**
   * Dropping x onto T1 moves it: S1 = [y], T1 = [x]. Dropping z, which no
   * list holds, then changes nothing.
   */
  method DropBetweenTwoLists() returns (first: DropResult, second: DropResult, s1: seq<string>, t1: seq<string>)
    ensures first == Moved(1) && second == NoSource
    ensures s1 == ["y"] && t1 == ["x"]
  {
    var b := RegisterGroupA();
    first := b.Drop(2, Some("x"));
    second := b.Drop(2, Some("z"));
    s1, t1 := b.itemsSource[1], b.itemsSource[2];
  }

  /** Control 8 gets GroupName "B", which creates both dictionaries with the groups "" and "B". */
  method CreateGroupB() returns (b: DragAndDropBehavior<string>)
    ensures fresh(b) && b.Valid()
    ensures b.groupName == map[8 := "B"]
    ensures b.dragSources == map[DefaultGroup := [], "B" := []] && b.sourceOrder == [DefaultGroup, "B"]
  {
    b := new DragAndDropBehavior<string>();
    b.GroupNameUpdated(8, "B");
  }

  /**
   * A drag source registered in group "" whose GroupName then becomes "B"
   * leaves the list of "" and joins the list of "B". The dictionaries
   * exist before control 7 registers, so even Add as written would not
   * throw here.
   */
  method ChangeGroup() returns (defaultList: seq<Id>, listB: seq<Id>)
    ensures defaultList == [] && listB == [7]
  {
    var b := CreateGroupB();
    b.IsDragSourceUpdated(7, true);
    assert b.dragSources[DefaultGroup] == [7];
    b.GroupNameUpdated(7, "B");
    defaultList, listB := b.dragSources[DefaultGroup], b.dragSources["B"];
  }
}

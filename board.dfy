/**
 * The task/group bookkeeping of the editor: the global `tasks`, `groups`,
 * `groupStates` (expanded or collapsed) and `groupOrder`, and the
 * functions that add, delete, edit, rename, reorder and toggle them.
 * `Date.now()` ids and `confirm()` answers are parameters.
 */
module Board {
  import opened Text
  import opened Dates
  import opened Records

  /** The task fields the editor writes through `updateTaskField`. */
  datatype TaskField = NameField | GroupField | StartDateField | EndDateField | ColorField | StatusField

  /** The group fields `updateGroupField` acts on. */
  datatype GroupField = GroupNameField | GroupColorField

  /** `task[field] = value`. */
  function SetField(t: Task, field: TaskField, value: string): (r: Task)
    ensures r.id == t.id
  {
    match field
    case NameField => t.(name := value)
    case GroupField => t.(group := value)
    case StartDateField => t.(startDate := value)
    case EndDateField => t.(endDate := value)
    case ColorField => t.(color := value)
    case StatusField => t.(status := value)
  }

  /** 1 January 1970, day 0 of JavaScript time values. */
  const EPOCH: Date := Date(1970, 1, 1)

  /**
   * The value JavaScript compares a `parseYMD` result by, in minutes since
   * 1970-01-01 00:00 UTC. A date is its local midnight: its day number
   * plus `tzOffset`, the local zone's `getTimezoneOffset()` (positive west
   * of UTC). `null` (an empty or unreadable string) converts to 0.
   */
  function TimeOf(s: string, tzOffset: int): int
  {
    match ParseYMD(s)
    case None => 0
    case Some(d) => (DayNumber(d) - DayNumber(EPOCH)) * 1440 + tzOffset
  }

  /** `parseYMD(a) > parseYMD(b)` in a zone `tzOffset` minutes behind UTC. */
  predicate ParsedAfter(a: string, b: string, tzOffset: int)
  {
    TimeOf(a, tzOffset) > TimeOf(b, tzOffset)
  }

  /** The start/end check of `updateTaskField`: a start after the end, or an end before the start. */
  predicate RejectsEdit(t: Task, field: TaskField, value: string, tzOffset: int)
  {
    (field == StartDateField && ParsedAfter(value, t.endDate, tzOffset))
    || (field == EndDateField && ParsedAfter(t.startDate, value, tzOffset))
  }

  /**
   * Within a day's offset of UTC, two parsed dates compare by calendar
   * order; a date against `null` compares as a date against 1970-01-01,
   * except that 1970-01-01 itself is after `null` west of UTC and before it
   * east of UTC.
   */
  lemma {:induction false} ParsedAfterOrder(a: string, b: string, tzOffset: int)
    requires -1440 < tzOffset < 1440
    ensures ParseYMD(a).Some? && ParseYMD(b).Some? ==>
              (ParsedAfter(a, b, tzOffset) <==> Before(ParseYMD(b).value, ParseYMD(a).value))
    ensures ParseYMD(a).Some? && ParseYMD(b).None? ==>
              (ParsedAfter(a, b, tzOffset) <==>
                 Before(EPOCH, ParseYMD(a).value) || (ParseYMD(a).value == EPOCH && tzOffset > 0))
    ensures ParseYMD(a).None? && ParseYMD(b).Some? ==>
              (ParsedAfter(a, b, tzOffset) <==>
                 Before(ParseYMD(b).value, EPOCH) || (ParseYMD(b).value == EPOCH && tzOffset < 0))
    ensures ParseYMD(a).None? && ParseYMD(b).None? ==> !ParsedAfter(a, b, tzOffset)
  {
    assert ValidDate(EPOCH);
    if ParseYMD(a).Some? {
      DayNumberOrder(EPOCH, ParseYMD(a).value);
      DayNumberOrder(ParseYMD(a).value, EPOCH);
    }
    if ParseYMD(b).Some? {
      DayNumberOrder(EPOCH, ParseYMD(b).value);
      DayNumberOrder(ParseYMD(b).value, EPOCH);
    }
    if ParseYMD(a).Some? && ParseYMD(b).Some? {
      DayNumberOrder(ParseYMD(b).value, ParseYMD(a).value);
    }
  }

  /**
   * `new Date(start) > new Date(end)` on two date-input values. Each is
   * read as a UTC date (`IsoDay`), with no two-digit-year window; a value
   * that is not an ISO date with month 1..12 and day 1..31 is an invalid
   * date, and a comparison with it is false.
   */
  predicate StartAfterEnd(startDate: string, endDate: string)
  {
    IsoInRange(startDate) && IsoInRange(endDate) && IsoAfter(startDate, endDate)
  }

  /** For two calendar dates, of any year, the check is chronological order. */
  lemma {:induction false} StartAfterEndChronological(startDate: string, endDate: string)
    requires IsoInRange(startDate) && IsoInRange(endDate)
    requires ValidDate(IsoDate(startDate)) && ValidDate(IsoDate(endDate))
    ensures StartAfterEnd(startDate, endDate) <==> Before(IsoDate(endDate), IsoDate(startDate))
  {
    IsoAfterIsLater(startDate, endDate);
  }

  /** The checks shared by `addTask` and `confirmAddTaskModal`. */
  predicate AcceptsNewTask(name: string, startDate: string, endDate: string)
  {
    Trim(name) != "" && startDate != "" && endDate != "" && !StartAfterEnd(startDate, endDate)
  }

  /** The task both add functions push. */
  function NewTask(id: int, name: string, groupInput: string, startDate: string, endDate: string, status: string): (t: Task)
    ensures t.group != "" && t.color == StatusColor(status)
  {
    Task(id, Trim(name), GroupNameOf(groupInput), startDate, endDate, StatusColor(status), status)
  }

  /** Each task's group has a record. */
  ghost predicate TasksGrouped(tasks: seq<Task>, groups: map<string, Group>)
  {
    forall i :: 0 <= i < |tasks| ==> tasks[i].group in groups
  }

  /** `order` names every group exactly once, and nothing else. */
  ghost predicate ListsOnce(order: seq<string>, groups: map<string, Group>)
  {
    (forall h :: multiset(order)[h] <= 1) && (forall h :: h in order <==> h in groups)
  }

  /**
   * The shape every operation keeps: each task's group exists, every group
   * has an expanded/collapsed state, and `groupOrder` lists each group once.
   */
  ghost predicate ConsistentState(tasks: seq<Task>, groups: map<string, Group>,
                                  states: map<string, bool>, order: seq<string>)
  {
    TasksGrouped(tasks, groups) && states.Keys == groups.Keys && ListsOnce(order, groups)
  }

  /** The states after the "create the group if it is missing" step: a new group starts expanded. */
  function GroupStates(groups: map<string, Group>, states: map<string, bool>, g: string): (r: map<string, bool>)
    ensures g !in groups ==> g in r && r[g]
    ensures forall h :: h != g ==> (h in r <==> h in states) && (h in r ==> r[h] == states[h])
  {
    if g in groups then states else states[g := true]
  }

  /** The order after the "create the group if it is missing" step: a new group comes last. */
  function GroupOrder(groups: map<string, Group>, order: seq<string>, g: string): (r: seq<string>)
    ensures g !in groups ==> |r| > 0 && r[|r| - 1] == g && r[..|r| - 1] == order
  {
    if g in groups then order else order + [g]
  }

  lemma {:induction false} SameKeysKeep(tasks: seq<Task>, groups: map<string, Group>, groups': map<string, Group>,
                                        states: map<string, bool>, order: seq<string>)
    requires ConsistentState(tasks, groups, states, order) && groups'.Keys == groups.Keys
    ensures ConsistentState(tasks, groups', states, order)
  {
    assert forall h :: h in groups' <==> h in groups;
  }

  /** Creating a missing group and pushing a task into it keeps the shape. */
  lemma {:induction false} AddTaskKeeps(tasks: seq<Task>, groups: map<string, Group>,
                                        states: map<string, bool>, order: seq<string>, t: Task)
    requires ConsistentState(tasks, groups, states, order)
    ensures ConsistentState(tasks + [t], WithGroup(groups, t.group, t.color),
                            GroupStates(groups, states, t.group), GroupOrder(groups, order, t.group))
  {
    AddGroupKeeps(tasks, groups, states, order, t.group, t.color);
  }

  lemma {:induction false} AddGroupKeeps(tasks: seq<Task>, groups: map<string, Group>,
                                         states: map<string, bool>, order: seq<string>, g: string, color: string)
    requires ConsistentState(tasks, groups, states, order)
    ensures ConsistentState(tasks, WithGroup(groups, g, color), GroupStates(groups, states, g), GroupOrder(groups, order, g))
    ensures forall t: Task :: t.group == g ==> ConsistentState(tasks + [t], WithGroup(groups, g, color),
                                             GroupStates(groups, states, g), GroupOrder(groups, order, g))
  {
    var order' := GroupOrder(groups, order, g);
    if g !in groups {
      assert g !in order;
      assert order' == order + [g];
      assert multiset(order') == multiset(order) + multiset{g};
      forall h
        ensures h in order' <==> h in order || h == g
      {
        assert h in order' <==> h in multiset(order');
      }
    }
    forall t: Task | t.group == g
      ensures TasksGrouped(tasks + [t], WithGroup(groups, g, color))
    {
      var s := tasks + [t];
      forall i | 0 <= i < |s|
        ensures s[i].group in WithGroup(groups, g, color)
      {
        if i < |tasks| {
          assert s[i] == tasks[i];
        }
      }
    }
  }

  /** Dropping a group that no task uses keeps the shape. */
  lemma {:induction false} DropGroupKeeps(tasks: seq<Task>, groups: map<string, Group>,
                                          states: map<string, bool>, order: seq<string>, g: string)
    requires ConsistentState(tasks, groups, states, order)
    requires forall i :: 0 <= i < |tasks| ==> tasks[i].group != g
    ensures ConsistentState(tasks, groups - {g}, states - {g}, Filter(order, NameIsNot(g)))
  {
    FilterCounts(order, NameIsNot(g));
    var order' := Filter(order, NameIsNot(g));
    var groups' := groups - {g};
    forall h
      ensures multiset(order')[h] <= 1
    {
      assert multiset(order)[h] <= 1;
    }
    forall h
      ensures h in order' <==> h in groups'
    {
      assert h in order' <==> h in order && NameIsNot(g)(h);
    }
    forall i | 0 <= i < |tasks|
      ensures tasks[i].group in groups'
    {
      assert tasks[i].group in groups;
    }
  }

  /** Keeping some of the tasks keeps each remaining task's group. */
  lemma {:induction false} FilterKeepsGrouped(tasks: seq<Task>, groups: map<string, Group>, keep: Task -> bool)
    requires TasksGrouped(tasks, groups)
    ensures TasksGrouped(Filter(tasks, keep), groups)
  {
    var r := Filter(tasks, keep);
    forall i | 0 <= i < |r|
      ensures r[i].group in groups
    {
      assert r[i] in tasks;
    }
  }

  /** Reordering the tasks keeps the board consistent. */
  lemma {:induction false} PermutationKeepsConsistent(tasks: seq<Task>, tasks': seq<Task>, groups: map<string, Group>,
                                                      states: map<string, bool>, order: seq<string>)
    requires ConsistentState(tasks, groups, states, order) && multiset(tasks') == multiset(tasks)
    ensures ConsistentState(tasks', groups, states, order)
  {
    PermutationKeepsGrouped(tasks, tasks', groups);
  }

  lemma {:induction false} MoveKeepsConsistent(tasks: seq<Task>, tasks': seq<Task>, groups: map<string, Group>,
                                               states: map<string, bool>, order: seq<string>)
    requires multiset(tasks') == multiset(tasks)
    ensures ConsistentState(tasks, groups, states, order) ==> ConsistentState(tasks', groups, states, order)
  {
    if ConsistentState(tasks, groups, states, order) {
      PermutationKeepsConsistent(tasks, tasks', groups, states, order);
    }
  }

  /** Reordering the tasks keeps each task's group. */
  lemma {:induction false} PermutationKeepsGrouped(tasks: seq<Task>, tasks': seq<Task>, groups: map<string, Group>)
    requires TasksGrouped(tasks, groups) && multiset(tasks') == multiset(tasks)
    ensures TasksGrouped(tasks', groups)
  {
    forall i | 0 <= i < |tasks'|
      ensures tasks'[i].group in groups
    {
      assert tasks'[i] in multiset(tasks');
      assert tasks'[i] in tasks;
    }
  }

  /** Moving the `k`-th task to an existing or freshly created group keeps the shape. */
  lemma {:induction false} RegroupKeeps(tasks: seq<Task>, groups: map<string, Group>,
                                        states: map<string, bool>, order: seq<string>,
                                        k: nat, newGroup: string, color: string)
    requires k < |tasks| && ConsistentState(tasks, groups, states, order)
    ensures ConsistentState(tasks[k := tasks[k].(group := newGroup)], WithGroup(groups, newGroup, color),
                            GroupStates(groups, states, newGroup), GroupOrder(groups, order, newGroup))
  {
    AddGroupKeeps(tasks, groups, states, order, newGroup, color);
  }

  lemma {:induction false} RegroupKeepsIf(tasks: seq<Task>, groups: map<string, Group>,
                                          states: map<string, bool>, order: seq<string>,
                                          k: nat, newGroup: string, color: string)
    requires k < |tasks|
    ensures ConsistentState(tasks, groups, states, order) ==>
      ConsistentState(tasks[k := tasks[k].(group := newGroup)], WithGroup(groups, newGroup, color),
                      GroupStates(groups, states, newGroup), GroupOrder(groups, order, newGroup))
  {
    if ConsistentState(tasks, groups, states, order) {
      RegroupKeeps(tasks, groups, states, order, k, newGroup, color);
    }
  }

  lemma {:induction false} DropGroupKeepsIf(tasks: seq<Task>, groups: map<string, Group>,
                                            states: map<string, bool>, order: seq<string>, g: string)
    requires forall i :: 0 <= i < |tasks| ==> tasks[i].group != g
    ensures ConsistentState(tasks, groups, states, order) ==>
      ConsistentState(tasks, groups - {g}, states - {g}, Filter(order, NameIsNot(g)))
  {
    if ConsistentState(tasks, groups, states, order) {
      DropGroupKeeps(tasks, groups, states, order, g);
    }
  }

  /** Renaming an existing group to a free name keeps the shape. */
  lemma {:induction false} RenameKeeps(tasks: seq<Task>, groups: map<string, Group>,
                                       states: map<string, bool>, order: seq<string>, g: string, newName: string)
    requires ConsistentState(tasks, groups, states, order) && g in groups && newName !in groups
    ensures 0 <= FirstIndex(order, NameIs(g))
    ensures ConsistentState(RenameGroupOfTasks(tasks, g, newName),
                            (groups - {g})[newName := groups[g].(name := newName)],
                            (states - {g})[newName := states[g]],
                            order[FirstIndex(order, NameIs(g)) := newName])
  {
    var groups' := (groups - {g})[newName := groups[g].(name := newName)];
    RenameOrderKeeps(order, groups, g, newName);
    var tasks' := RenameGroupOfTasks(tasks, g, newName);
    forall j | 0 <= j < |tasks'|
      ensures tasks'[j].group in groups'
    {
      assert tasks[j].group in groups;
    }
  }

  /** Writing the new name over the old one in the order keeps it listing each group once. */
  lemma {:induction false} RenameOrderKeeps(order: seq<string>, groups: map<string, Group>, g: string, newName: string)
    requires ListsOnce(order, groups) && g in groups && newName !in groups
    ensures 0 <= FirstIndex(order, NameIs(g))
    ensures ListsOnce(order[FirstIndex(order, NameIs(g)) := newName], (groups - {g})[newName := groups[g].(name := newName)])
  {
    assert g in order;
    var i := FirstIndex(order, NameIs(g));
    var order' := order[i := newName];
    var groups' := (groups - {g})[newName := groups[g].(name := newName)];
    assert order[i] == g;
    assert multiset(order)[newName] == 0;
    assert multiset(order') == multiset(order)[g := multiset(order)[g] - 1][newName := 1];
    forall h
      ensures h in order' <==> h in groups'
    {
      assert h in order' <==> h in multiset(order');
      assert h in order <==> h in multiset(order);
    }
  }

  /** Reordering the order keeps the shape. */
  lemma {:induction false} PermutationKeepsOrder(order: seq<string>, order': seq<string>, groups: map<string, Group>)
    requires ListsOnce(order, groups) && multiset(order') == multiset(order)
    ensures ListsOnce(order', groups)
  {
    forall h
      ensures h in order' <==> h in order
    {
      assert h in order' <==> h in multiset(order');
      assert h in order <==> h in multiset(order);
    }
  }

  /**
   * After re-deriving the old and then the new group, the new group (which
   * has a task) carries its derived status, so does the old one when it
   * still exists and has a task, and no other group changes.
   */
  lemma {:induction false} RederiveBothFacts(groups: map<string, Group>, tasks: seq<Task>, oldGroup: string, newGroup: string)
    requires newGroup in groups && HasTask(tasks, newGroup)
    ensures var r := AutoStatus(if oldGroup != "" then AutoStatus(groups, tasks, oldGroup) else groups, tasks, newGroup);
            newGroup in r && r[newGroup].status == DeriveGroupStatus(tasks, newGroup)
            && (oldGroup != "" && oldGroup in groups && HasTask(tasks, oldGroup) ==>
                  r[oldGroup].status == DeriveGroupStatus(tasks, oldGroup))
            && (forall h :: h in groups && h != oldGroup && h != newGroup ==> h in r && r[h] == groups[h])
  {
    DeriveGroupStatusPriority(tasks, newGroup);
    DeriveGroupStatusPriority(tasks, oldGroup);
  }

  /** The groups after a task moves from `oldGroup` to `newGroup`, before any status is re-derived. */
  function KeptGroups(groups: map<string, Group>, tasks: seq<Task>, oldGroup: string, newGroup: string,
                      color: string): map<string, Group>
  {
    if Filter(tasks, GroupIs(oldGroup)) != [] then WithGroup(groups, newGroup, color)
    else WithGroup(groups, newGroup, color) - {oldGroup}
  }

  /** The states after a task moves from `oldGroup` to `newGroup`. */
  function KeptStates(groups: map<string, Group>, states: map<string, bool>, tasks: seq<Task>,
                      oldGroup: string, newGroup: string): map<string, bool>
  {
    if Filter(tasks, GroupIs(oldGroup)) != [] then GroupStates(groups, states, newGroup)
    else GroupStates(groups, states, newGroup) - {oldGroup}
  }

  /** The order after a task moves from `oldGroup` to `newGroup`. */
  function KeptOrder(groups: map<string, Group>, order: seq<string>, tasks: seq<Task>,
                     oldGroup: string, newGroup: string): seq<string>
  {
    if Filter(tasks, GroupIs(oldGroup)) != [] then GroupOrder(groups, order, newGroup)
    else Filter(GroupOrder(groups, order, newGroup), NameIsNot(oldGroup))
  }

  /**
   * The groups after a task of `oldGroup` has moved to `newGroup` (`tasks`
   * is the list after the move): the kept groups with the old group's and
   * then the new group's status re-derived.
   */
  function Regrouped(groups: map<string, Group>, tasks: seq<Task>, oldGroup: string, newGroup: string,
                     color: string): map<string, Group>
  {
    var kept := KeptGroups(groups, tasks, oldGroup, newGroup, color);
    AutoStatus(if oldGroup != "" then AutoStatus(kept, tasks, oldGroup) else kept, tasks, newGroup)
  }

  /**
   * A group change leaves the new group with its derived status, the old
   * group (when it still has a task) with its derived status, and every
   * other group as it was.
   */
  lemma {:induction false} RegroupedStatuses(groups: map<string, Group>, tasks: seq<Task>, k: nat,
                                             newGroup: string)
    requires k < |tasks|
    ensures var oldGroup := tasks[k].group;
            var tasks' := tasks[k := tasks[k].(group := newGroup)];
            var r := Regrouped(groups, tasks', oldGroup, newGroup, tasks[k].color);
            newGroup in r && r[newGroup].status == DeriveGroupStatus(tasks', newGroup)
            && (oldGroup != "" && oldGroup in groups && HasTask(tasks', oldGroup) ==>
                  oldGroup in r && r[oldGroup].status == DeriveGroupStatus(tasks', oldGroup))
            && (forall h :: h in groups && h != oldGroup && h != newGroup ==> h in r && r[h] == groups[h])
  {
    var oldGroup := tasks[k].group;
    var tasks' := tasks[k := tasks[k].(group := newGroup)];
    var kept := KeptGroups(groups, tasks', oldGroup, newGroup, tasks[k].color);
    assert tasks'[k].group == newGroup;
    GroupTasksPresent(tasks', newGroup);
    GroupTasksPresent(tasks', oldGroup);
    RederiveBothFacts(kept, tasks', oldGroup, newGroup);
  }

  /**
   * The board after group `g` is renamed to `newName`: the record moves
   * to the new key under the new name, the expanded/collapsed state moves
   * with it, the name is written over the old one in the order, and every
   * task of `g` follows. A group without a stored state hands on
   * `undefined`, which every reader of the state (the toggle, the
   * toggle-all test and the row's `isExpanded`) takes as collapsed, so the
   * new name is stored as collapsed.
   */
  predicate Renamed(tasks: seq<Task>, groups: map<string, Group>, states: map<string, bool>, order: seq<string>,
                    g: string, newName: string,
                    tasks': seq<Task>, groups': map<string, Group>, states': map<string, bool>, order': seq<string>)
    requires g in groups
  {
    groups' == (groups - {g})[newName := groups[g].(name := newName)]
    && states' == (states - {g})[newName := g in states && states[g]]
    && tasks' == RenameGroupOfTasks(tasks, g, newName)
    && order' == (var i := FirstIndex(order, NameIs(g)); if i < 0 then order else order[i := newName])
  }

  /**
   * A rename of a group with no stored state leaves a collapsed state under
   * the new name, so a following toggle-all sees a collapsed group and
   * expands every group.
   */
  lemma {:induction false} RenamedUnstatedToggleAll(tasks: seq<Task>, groups: map<string, Group>,
                                                    states: map<string, bool>, order: seq<string>,
                                                    g: string, newName: string,
                                                    tasks': seq<Task>, groups': map<string, Group>,
                                                    states': map<string, bool>, order': seq<string>)
    requires g in groups && g !in states
    requires Renamed(tasks, groups, states, order, g, newName, tasks', groups', states', order')
    ensures newName in states' && !states'[newName]
    ensures forall h :: h in ToggleAll(states') ==> ToggleAll(states')[h]
  {
    ToggleAllUniform(states');
  }

  class Board {
    var tasks: seq<Task>
    var groups: map<string, Group>
    var groupStates: map<string, bool>
    var groupOrder: seq<string>

    ghost predicate Consistent()
      reads this
    {
      ConsistentState(tasks, groups, groupStates, groupOrder)
    }

    /** `makeEmptyProject`'s board. */
    constructor ()
      ensures tasks == [] && groups == map[] && groupStates == map[] && groupOrder == []
      ensures Consistent()
    {
      tasks := [];
      groups := map[];
      groupStates := map[];
      groupOrder := [];
    }

    /** `applyAutoGroupStatus(g)`. */
    method ApplyAutoGroupStatus(g: string)
      modifies this
      ensures groups == AutoStatus(old(groups), tasks, g)
      ensures tasks == old(tasks) && groupStates == old(groupStates) && groupOrder == old(groupOrder)
      ensures old(Consistent()) ==> Consistent()
    {
      if g in groups {
        var auto := DeriveGroupStatus(tasks, g);
        if auto.Some? && groups[g].status != auto {
          groups := groups[g := groups[g].(status := auto, color := StatusColor(auto.value))];
        }
      }
      if old(Consistent()) {
        SameKeysKeep(tasks, old(groups), groups, groupStates, groupOrder);
      }
    }

    /** The "create the group if it is missing" step. */
    method AddGroupIfMissing(g: string, color: string)
      modifies this
      ensures groups == WithGroup(old(groups), g, color)
      ensures groupStates == GroupStates(old(groups), old(groupStates), g)
      ensures groupOrder == GroupOrder(old(groups), old(groupOrder), g)
      ensures tasks == old(tasks)
    {
      if g !in groups {
        groups := groups[g := Group(g, color, None)];
        groupStates := groupStates[g := true];
        groupOrder := groupOrder + [g];
      }
    }

    /** The "delete the group" step: its record, its state and its place in the order go. */
    method DropGroup(g: string)
      modifies this
      ensures groups == old(groups) - {g} && groupStates == old(groupStates) - {g}
      ensures groupOrder == Filter(old(groupOrder), NameIsNot(g))
      ensures tasks == old(tasks)
    {
      groups := groups - {g};
      groupStates := groupStates - {g};
      groupOrder := Filter(groupOrder, NameIsNot(g));
    }

    /**
     * `confirmAddTaskModal`: a task with a non-blank name and both dates,
     * start not after end, is pushed; its group is created when missing
     * and has its status re-derived.
     */
    method ConfirmAddTask(id: int, name: string, groupInput: string, startDate: string, endDate: string, status: string)
      modifies this
      ensures !AcceptsNewTask(name, startDate, endDate) ==> unchanged(this)
      ensures AcceptsNewTask(name, startDate, endDate) ==>
                var t := NewTask(id, name, groupInput, startDate, endDate, status);
                tasks == old(tasks) + [t]
                && groups == AutoStatus(WithGroup(old(groups), t.group, t.color), tasks, t.group)
                && groupStates == GroupStates(old(groups), old(groupStates), t.group)
                && groupOrder == GroupOrder(old(groups), old(groupOrder), t.group)
                && groups[t.group].status == DeriveGroupStatus(tasks, t.group)
      ensures old(Consistent()) ==> Consistent()
    {
      if !AcceptsNewTask(name, startDate, endDate) {
        return;
      }
      var t := NewTask(id, name, groupInput, startDate, endDate, status);
      if old(Consistent()) {
        AddTaskKeeps(tasks, groups, groupStates, groupOrder, t);
      }
      tasks := tasks + [t];
      AddGroupIfMissing(t.group, t.color);
      ApplyAutoGroupStatus(t.group);
      assert tasks[|tasks| - 1].group == t.group;
      DeriveGroupStatusPriority(tasks, t.group);
    }

    /** `addTask`: as `confirmAddTaskModal`, but the group's status is not re-derived. */
    method AddTask(id: int, name: string, groupInput: string, startDate: string, endDate: string, status: string)
      modifies this
      ensures !AcceptsNewTask(name, startDate, endDate) ==> unchanged(this)
      ensures AcceptsNewTask(name, startDate, endDate) ==>
                var t := NewTask(id, name, groupInput, startDate, endDate, status);
                tasks == old(tasks) + [t]
                && groups == WithGroup(old(groups), t.group, t.color)
                && groupStates == GroupStates(old(groups), old(groupStates), t.group)
                && groupOrder == GroupOrder(old(groups), old(groupOrder), t.group)
      ensures old(Consistent()) ==> Consistent()
    {
      if !AcceptsNewTask(name, startDate, endDate) {
        return;
      }
      var t := NewTask(id, name, groupInput, startDate, endDate, status);
      if old(Consistent()) {
        AddTaskKeeps(tasks, groups, groupStates, groupOrder, t);
      }
      tasks := tasks + [t];
      AddGroupIfMissing(t.group, t.color);
    }

    /**
     * `deleteTask`: on confirmation every task with the id goes; the first
     * such task's group is then dropped when no task is left in it, and
     * otherwise has its status re-derived. No other group changes.
     */
    method DeleteTask(taskId: int, confirmed: bool)
      modifies this
      ensures FirstIndex(old(tasks), IdIs(taskId)) < 0 || !confirmed ==> unchanged(this)
      ensures 0 <= FirstIndex(old(tasks), IdIs(taskId)) && confirmed ==>
                var g := old(tasks)[FirstIndex(old(tasks), IdIs(taskId))].group;
                tasks == Filter(old(tasks), IdIsNot(taskId))
                && (forall t :: t in tasks <==> t in old(tasks) && t.id != taskId)
                && (!HasTask(tasks, g) ==>
                      groups == old(groups) - {g} && groupStates == old(groupStates) - {g}
                      && groupOrder == Filter(old(groupOrder), NameIsNot(g)))
                && (HasTask(tasks, g) ==>
                      groups == AutoStatus(old(groups), tasks, g)
                      && groupStates == old(groupStates) && groupOrder == old(groupOrder))
                && (forall h :: h in old(groups) && h != g ==> h in groups && groups[h] == old(groups)[h])
      ensures old(Consistent()) ==> Consistent()
    {
      var k := FirstIndex(tasks, IdIs(taskId));
      if k < 0 || !confirmed {
        return;
      }
      var g := tasks[k].group;
      tasks := Filter(tasks, IdIsNot(taskId));
      if old(Consistent()) {
        FilterKeepsGrouped(old(tasks), groups, IdIsNot(taskId));
      }
      GroupTasksPresent(tasks, g);
      if |Filter(tasks, GroupIs(g))| == 0 {
        if old(Consistent()) {
          DropGroupKeeps(tasks, groups, groupStates, groupOrder, g);
        }
        DropGroup(g);
      } else {
        ApplyAutoGroupStatus(g);
      }
    }

    /** `deleteGroup`: on confirmation the group, its state, its place in the order and all its tasks go. */
    method DeleteGroup(g: string, confirmed: bool)
      modifies this
      ensures g !in old(groups) || !confirmed ==> unchanged(this)
      ensures g in old(groups) && confirmed ==>
                tasks == Filter(old(tasks), GroupIsNot(g))
                && groups == old(groups) - {g} && groupStates == old(groupStates) - {g}
                && groupOrder == Filter(old(groupOrder), NameIsNot(g))
      ensures old(Consistent()) ==> Consistent()
    {
      if g !in groups || !confirmed {
        return;
      }
      tasks := Filter(tasks, GroupIsNot(g));
      forall i | 0 <= i < |tasks|
        ensures tasks[i].group != g
      {
        assert tasks[i] in tasks;
      }
      if old(Consistent()) {
        FilterKeepsGrouped(old(tasks), groups, GroupIsNot(g));
        DropGroupKeeps(tasks, groups, groupStates, groupOrder, g);
      }
      DropGroup(g);
    }

    /** `updateTaskDates`: the first task with the id gets the two dates. */
    method UpdateTaskDates(taskId: int, startDate: string, endDate: string)
      modifies this
      ensures var k := FirstIndex(old(tasks), IdIs(taskId));
              tasks == if k < 0 then old(tasks)
                       else old(tasks)[k := old(tasks)[k].(startDate := startDate, endDate := endDate)]
      ensures groups == old(groups) && groupStates == old(groupStates) && groupOrder == old(groupOrder)
      ensures old(Consistent()) ==> Consistent()
    {
      var k := FirstIndex(tasks, IdIs(taskId));
      if k >= 0 {
        tasks := tasks[k := tasks[k].(startDate := startDate, endDate := endDate)];
      }
    }

    /**
     * `updateTaskField`: a start after the end or an end before the start
     * is refused; otherwise the field of the first task with the id is
     * written, a group change going through `MoveToGroup`. `tzOffset` is
     * the local zone's offset, which the two date checks depend on.
     */
    method UpdateTaskField(taskId: int, field: TaskField, value: string, tzOffset: int)
      modifies this
      ensures var k := FirstIndex(old(tasks), IdIs(taskId));
              k < 0 || RejectsEdit(old(tasks)[k], field, value, tzOffset) ==> unchanged(this)
      ensures var k := FirstIndex(old(tasks), IdIs(taskId));
              0 <= k && !RejectsEdit(old(tasks)[k], field, value, tzOffset) && field != GroupField ==>
                tasks == old(tasks)[k := SetField(old(tasks)[k], field, value)]
                && groups == old(groups) && groupStates == old(groupStates) && groupOrder == old(groupOrder)
      ensures var k := FirstIndex(old(tasks), IdIs(taskId));
              0 <= k && field == GroupField ==>
                var oldGroup := old(tasks)[k].group;
                var newGroup := GroupNameOf(value);
                tasks == old(tasks)[k := old(tasks)[k].(group := newGroup)]
                && groups == Regrouped(old(groups), tasks, oldGroup, newGroup, old(tasks)[k].color)
                && groupStates == KeptStates(old(groups), old(groupStates), tasks, oldGroup, newGroup)
                && groupOrder == KeptOrder(old(groups), old(groupOrder), tasks, oldGroup, newGroup)
      ensures old(Consistent()) ==> Consistent()
    {
      var k := FirstIndex(tasks, IdIs(taskId));
      if k < 0 || RejectsEdit(tasks[k], field, value, tzOffset) {
        return;
      }
      if field == GroupField {
        MoveToGroup(k, GroupNameOf(value));
      } else {
        tasks := tasks[k := SetField(tasks[k], field, value)];
      }
    }

    /**
     * The group branch of `updateTaskField` for the `k`-th task: the new
     * group (the value trimmed, or Ungrouped) is created when missing, the
     * old group is dropped when no task is left in it, and both groups
     * that remain have their status re-derived (`RegroupedStatuses` states
     * what that leaves each group with).
     */
    method MoveToGroup(k: nat, newGroup: string)
      requires k < |tasks|
      modifies this
      ensures var oldGroup := old(tasks)[k].group;
              tasks == old(tasks)[k := old(tasks)[k].(group := newGroup)]
              && groups == Regrouped(old(groups), tasks, oldGroup, newGroup, old(tasks)[k].color)
              && groupStates == KeptStates(old(groups), old(groupStates), tasks, oldGroup, newGroup)
              && groupOrder == KeptOrder(old(groups), old(groupOrder), tasks, oldGroup, newGroup)
      ensures old(Consistent()) ==> Consistent()
    {
      var oldGroup := tasks[k].group;
      PlaceInGroup(k, newGroup);
      RederiveBoth(oldGroup, newGroup);
    }

    /**
     * The bookkeeping half of a group change: the `k`-th task moves to
     * `newGroup`, which is created when missing, and its old group is
     * dropped when no task is left in it.
     */
    method PlaceInGroup(k: nat, newGroup: string)
      requires k < |tasks|
      modifies this
      ensures var oldGroup := old(tasks)[k].group;
              tasks == old(tasks)[k := old(tasks)[k].(group := newGroup)]
              && groups == KeptGroups(old(groups), tasks, oldGroup, newGroup, old(tasks)[k].color)
              && groupStates == KeptStates(old(groups), old(groupStates), tasks, oldGroup, newGroup)
              && groupOrder == KeptOrder(old(groups), old(groupOrder), tasks, oldGroup, newGroup)
      ensures newGroup in groups && HasTask(tasks, newGroup)
      ensures old(Consistent()) ==> Consistent()
    {
      var task := tasks[k];
      var oldGroup := task.group;
      RegroupKeepsIf(tasks, groups, groupStates, groupOrder, k, newGroup, task.color);
      tasks := tasks[k := task.(group := newGroup)];
      AddGroupIfMissing(newGroup, task.color);
      assert tasks[k].group == newGroup;
      assert HasTask(tasks, newGroup);
      if Filter(tasks, GroupIs(oldGroup)) == [] {
        GroupTasksPresent(tasks, oldGroup);
        DropGroupKeepsIf(tasks, groups, groupStates, groupOrder, oldGroup);
        DropGroup(oldGroup);
      }
    }

    /** The two `applyAutoGroupStatus` calls that end a group change, old group first. */
    method RederiveBoth(oldGroup: string, newGroup: string)
      modifies this
      ensures groups == AutoStatus(if oldGroup != "" then AutoStatus(old(groups), tasks, oldGroup) else old(groups),
                                   tasks, newGroup)
      ensures tasks == old(tasks) && groupStates == old(groupStates) && groupOrder == old(groupOrder)
      ensures old(Consistent()) ==> Consistent()
    {
      if oldGroup != "" && oldGroup in groups {
        ApplyAutoGroupStatus(oldGroup);
      }
      if newGroup in groups {
        ApplyAutoGroupStatus(newGroup);
      }
    }

    /**
     * `updateGroupField`: a new colour is stored; a new name that is not
     * blank, not the old one and not taken goes through `RenameGroup`.
     */
    method UpdateGroupField(g: string, field: GroupField, value: string)
      modifies this
      ensures g !in old(groups) ==> unchanged(this)
      ensures g in old(groups) && field == GroupColorField ==>
                groups == old(groups)[g := old(groups)[g].(color := value)]
                && tasks == old(tasks) && groupStates == old(groupStates) && groupOrder == old(groupOrder)
      ensures g in old(groups) && field == GroupNameField
              && (Trim(value) == "" || Trim(value) == g || Trim(value) in old(groups))
              ==> unchanged(this)
      ensures g in old(groups) && field == GroupNameField
              && Trim(value) != "" && Trim(value) != g && Trim(value) !in old(groups) ==>
                Renamed(old(tasks), old(groups), old(groupStates), old(groupOrder), g, Trim(value),
                        tasks, groups, groupStates, groupOrder)
      ensures old(Consistent()) ==> Consistent()
    {
      if g !in groups {
        return;
      }
      if field == GroupColorField {
        groups := groups[g := groups[g].(color := value)];
        return;
      }
      var newName := Trim(value);
      if newName == "" || newName == g || newName in groups {
        return;
      }
      RenameGroup(g, newName);
    }

    /**
     * The rename branch of `updateGroupField`: the record, its state, its
     * place in the order and its tasks move to the new name.
     */
    method RenameGroup(g: string, newName: string)
      requires g in groups && newName !in groups
      modifies this
      ensures Renamed(old(tasks), old(groups), old(groupStates), old(groupOrder), g, newName,
                      tasks, groups, groupStates, groupOrder)
      ensures old(Consistent()) ==> Consistent()
    {
      if old(Consistent()) {
        RenameKeeps(tasks, groups, groupStates, groupOrder, g, newName);
      }
      var record := groups[g];
      groups := (groups - {g})[newName := record.(name := newName)];
      var state := g in groupStates && groupStates[g];
      groupStates := (groupStates - {g})[newName := state];
      tasks := RenameGroupOfTasks(tasks, g, newName);
      var i := FirstIndex(groupOrder, NameIs(g));
      if i >= 0 {
        groupOrder := groupOrder[i := newName];
      }
    }

    /** `toggleGroup`: the state flips; a group without one becomes expanded. */
    method ToggleGroup(g: string)
      modifies this
      ensures groupStates == old(groupStates)[g := !(g in old(groupStates) && old(groupStates)[g])]
      ensures tasks == old(tasks) && groups == old(groups) && groupOrder == old(groupOrder)
      ensures old(Consistent()) && g in groups ==> Consistent()
    {
      groupStates := groupStates[g := !(g in groupStates && groupStates[g])];
    }

    /** `toggleAllGroups`. */
    method ToggleAllGroups()
      modifies this
      ensures groupStates == ToggleAll(old(groupStates))
      ensures tasks == old(tasks) && groups == old(groups) && groupOrder == old(groupOrder)
      ensures old(Consistent()) ==> Consistent()
    {
      groupStates := ToggleAll(groupStates);
    }

    /**
     * `reorderTasks`: a task dropped on a task of another group changes
     * group as `updateTaskField` does; within a group it is cut out and
     * spliced in at the target's index found after the cut.
     */
    method ReorderTasks(draggedId: int, targetId: int)
      modifies this
      ensures var d := FirstIndex(old(tasks), IdIs(draggedId));
              var t := FirstIndex(old(tasks), IdIs(targetId));
              d < 0 || t < 0 ==> unchanged(this)
      ensures var d := FirstIndex(old(tasks), IdIs(draggedId));
              var t := FirstIndex(old(tasks), IdIs(targetId));
              0 <= d && 0 <= t && old(tasks)[d].group == old(tasks)[t].group ==>
                tasks == MoveTask(old(tasks), d, targetId)
                && groups == old(groups) && groupStates == old(groupStates) && groupOrder == old(groupOrder)
      ensures var d := FirstIndex(old(tasks), IdIs(draggedId));
              var t := FirstIndex(old(tasks), IdIs(targetId));
              0 <= d && 0 <= t && old(tasks)[d].group != old(tasks)[t].group ==>
                var oldGroup := old(tasks)[d].group;
                var newGroup := GroupNameOf(old(tasks)[t].group);
                tasks == old(tasks)[d := old(tasks)[d].(group := newGroup)]
                && groups == Regrouped(old(groups), tasks, oldGroup, newGroup, old(tasks)[d].color)
                && groupStates == KeptStates(old(groups), old(groupStates), tasks, oldGroup, newGroup)
                && groupOrder == KeptOrder(old(groups), old(groupOrder), tasks, oldGroup, newGroup)
      ensures old(Consistent()) ==> Consistent()
    {
      var d := FirstIndex(tasks, IdIs(draggedId));
      var t := FirstIndex(tasks, IdIs(targetId));
      if d < 0 || t < 0 {
        return;
      }
      if tasks[d].group != tasks[t].group {
        MoveToGroup(d, GroupNameOf(tasks[t].group));
      } else {
        // Both tasks belong to the group being filtered, so both
        // `findIndex` lookups inside it succeed.
        MoveWithinGroup(d, targetId);
      }
    }

    /** The same-group half of `reorderTasks`: the `k`-th task is cut out and spliced in before the target. */
    method MoveWithinGroup(k: nat, targetId: int)
      requires k < |tasks|
      modifies this
      ensures tasks == MoveTask(old(tasks), k, targetId)
      ensures groups == old(groups) && groupStates == old(groupStates) && groupOrder == old(groupOrder)
      ensures old(Consistent()) ==> Consistent()
    {
      var moved := MoveTask(tasks, k, targetId);
      MoveKeepsConsistent(tasks, moved, groups, groupStates, groupOrder);
      tasks := moved;
    }

    /**
     * `reorderGroups`: when both names are in the order, the dragged one
     * is cut out and spliced in at the index the target had before the cut.
     */
    method ReorderGroups(dragged: string, target: string)
      modifies this
      ensures var d := FirstIndex(old(groupOrder), NameIs(dragged));
              var t := FirstIndex(old(groupOrder), NameIs(target));
              groupOrder == if d < 0 || t < 0 then old(groupOrder) else MoveName(old(groupOrder), d, t)
      ensures multiset(groupOrder) == multiset(old(groupOrder))
      ensures tasks == old(tasks) && groups == old(groups) && groupStates == old(groupStates)
      ensures old(Consistent()) ==> Consistent()
    {
      var d := FirstIndex(groupOrder, NameIs(dragged));
      var t := FirstIndex(groupOrder, NameIs(target));
      if d >= 0 && t >= 0 {
        MoveNamePlacement(groupOrder, d, t);
        if old(Consistent()) {
          PermutationKeepsOrder(groupOrder, MoveName(groupOrder, d, t), groups);
        }
        groupOrder := MoveName(groupOrder, d, t);
      }
    }
  }
}

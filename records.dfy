/**
 * The values the board keeps in its global state (`tasks`, `groups`,
 * `groupStates`, `groupOrder`), the array primitives the mutation functions
 * use (`filter`, `findIndex`/`indexOf`, `splice`), and the derivation of a
 * group's status from the statuses of its tasks.
 */
module Records {
  import opened Text
  import opened Dates

  const NOT_STARTED := "Not Started"
  const IN_PROGRESS := "In Progress"
  const DELAYED := "Delayed"
  const BLOCKED := "Blocked"
  const ACTION_NEEDED := "Action Needed"
  const COMPLETED := "Completed"
  const UNGROUPED := "Ungrouped"

  /** A task record; a missing `status` is the empty string. */
  datatype Task = Task(id: int, name: string, group: string, startDate: string,
                       endDate: string, color: string, status: string)

  /** A `groups[name]` record; `status` is absent until a status is derived. */
  datatype Group = Group(name: string, color: string, status: Option<string>)

  /** `STATUS_COLORS[status] || '#808080'`. */
  function StatusColor(status: string): (c: string)
    ensures |c| == 7 && c[0] == '#'
    ensures status !in {IN_PROGRESS, DELAYED, BLOCKED, ACTION_NEEDED, COMPLETED} ==> c == "#808080"
  {
    if status == IN_PROGRESS then "#4C9141"
    else if status == DELAYED then "#FFA500"
    else if status == BLOCKED then "#CC0000"
    else if status == ACTION_NEEDED then "#4A0072"
    else if status == COMPLETED then "#00B4D8"
    else "#808080"
  }

  /** `t.status || 'Not Started'`. */
  function EffectiveStatus(status: string): (r: string)
    ensures r != ""
    ensures status != "" ==> r == status
  {
    if status == "" then NOT_STARTED else status
  }

  /** `(input || '').trim() || 'Ungrouped'`. */
  function GroupNameOf(input: string): (r: string)
    ensures r != ""
    ensures Trim(input) != "" ==> r == Trim(input)
  {
    if Trim(input) == "" then UNGROUPED else Trim(input)
  }

  // The callbacks handed to `filter`, `find` and `indexOf`.
  function IdIs(id: int): Task -> bool { (t: Task) => t.id == id }
  function IdIsNot(id: int): Task -> bool { (t: Task) => t.id != id }
  function GroupIs(g: string): Task -> bool { (t: Task) => t.group == g }
  function GroupIsNot(g: string): Task -> bool { (t: Task) => t.group != g }
  function NameIs(g: string): string -> bool { h => h == g }
  function NameIsNot(g: string): string -> bool { h => h != g }

  /** `s.filter(keep)`: the elements that pass, each as often as in `s`. */
  function Filter<T(!new)>(s: seq<T>, keep: T -> bool): (r: seq<T>)
    ensures |r| <= |s|
    ensures forall x :: x in r <==> x in s && keep(x)
  {
    if s == [] then []
    else (if keep(s[0]) then [s[0]] else []) + Filter(s[1..], keep)
  }

  /** A filter keeps each passing element as often as it occurs, and no other. */
  lemma {:induction false} FilterCounts<T(!new)>(s: seq<T>, keep: T -> bool)
    ensures forall x :: multiset(Filter(s, keep))[x] == if keep(x) then multiset(s)[x] else 0
  {
    if s != [] {
      assert s == [s[0]] + s[1..];
      FilterCounts(s[1..], keep);
    }
  }

  /** Filtering a concatenation filters each part. */
  lemma {:induction false} FilterAppend<T(!new)>(a: seq<T>, b: seq<T>, keep: T -> bool)
    ensures Filter(a + b, keep) == Filter(a, keep) + Filter(b, keep)
  {
    if a == [] {
      assert a + b == b;
    } else {
      assert (a + b)[0] == a[0] && (a + b)[1..] == a[1..] + b;
      FilterAppend(a[1..], b, keep);
    }
  }

  /** `s.findIndex(p)` (and `indexOf` with an equality test): the first hit, or -1. */
  function FirstIndex<T>(s: seq<T>, p: T -> bool): (i: int)
    ensures -1 <= i < |s|
    ensures 0 <= i ==> p(s[i]) && forall j :: 0 <= j < i ==> !p(s[j])
    ensures i == -1 ==> forall j :: 0 <= j < |s| ==> !p(s[j])
  {
    if s == [] then -1
    else if p(s[0]) then 0
    else
      var k := FirstIndex(s[1..], p);
      if k == -1 then -1 else k + 1
  }

  /** `splice(i, 1)` with `0 <= i < |s|`: the sequence without its `i`-th element. */
  function RemoveAt<T>(s: seq<T>, i: nat): (r: seq<T>)
    requires i < |s|
    ensures |r| == |s| - 1
    ensures forall j :: 0 <= j < i ==> r[j] == s[j]
    ensures forall j :: i <= j < |r| ==> r[j] == s[j + 1]
    ensures multiset(r) + multiset{s[i]} == multiset(s)
  {
    assert s == s[..i] + [s[i]] + s[i + 1..];
    s[..i] + s[i + 1..]
  }

  /** `splice(i, 0, x)` with `0 <= i <= |s|`: `x` inserted in front of position `i`. */
  function InsertAt<T>(s: seq<T>, i: nat, x: T): (r: seq<T>)
    requires i <= |s|
    ensures |r| == |s| + 1 && r[i] == x
    ensures forall j :: 0 <= j < i ==> r[j] == s[j]
    ensures forall j :: i < j < |r| ==> r[j] == s[j - 1]
    ensures multiset(r) == multiset(s) + multiset{x}
  {
    assert s == s[..i] + s[i..];
    s[..i] + [x] + s[i..]
  }

  /**
   * Where `splice(start, …)` starts on an array of length `len`: a negative
   * start counts from the end (and stops at 0), a start past the end is the end.
   */
  function SpliceStart(start: int, len: nat): (i: nat)
    ensures i <= len
    ensures 0 <= start <= len ==> i == start
    ensures start < 0 && 0 <= len + start ==> i == len + start
  {
    if start < 0 then (if len + start < 0 then 0 else len + start)
    else if start > len then len
    else start
  }

  /** The statuses of `groupTasks`, a missing one read as Not Started (the `Set` of the source). */
  function StatusesOf(groupTasks: seq<Task>): set<string>
  {
    set t | t in groupTasks :: EffectiveStatus(t.status)
  }

  /**
   * `deriveGroupStatusFromTasks`: `None` for a group without tasks, else
   * the first of Blocked, Action Needed, Delayed, In Progress that occurs,
   * else Completed when every task is Completed, else Not Started.
   */
  function DeriveGroupStatus(tasks: seq<Task>, g: string): (r: Option<string>)
    ensures r.Some? ==> r.value in {NOT_STARTED, IN_PROGRESS, DELAYED, BLOCKED, ACTION_NEEDED, COMPLETED}
  {
    var groupTasks := Filter(tasks, GroupIs(g));
    if |groupTasks| == 0 then None
    else
      var statuses := StatusesOf(groupTasks);
      if BLOCKED in statuses then Some(BLOCKED)
      else if ACTION_NEEDED in statuses then Some(ACTION_NEEDED)
      else if DELAYED in statuses then Some(DELAYED)
      else if IN_PROGRESS in statuses then Some(IN_PROGRESS)
      else if forall t :: t in groupTasks ==> EffectiveStatus(t.status) == COMPLETED then Some(COMPLETED)
      else Some(NOT_STARTED)
  }

  /** A group with a task has a derived status. */
  lemma {:induction false} HasTaskDerives(tasks: seq<Task>, g: string)
    requires HasTask(tasks, g)
    ensures DeriveGroupStatus(tasks, g).Some?
  {
    GroupTasksPresent(tasks, g);
  }

  /** A task of another group does not change a group's derived status. */
  lemma {:induction false} DeriveIgnoresOtherGroups(tasks: seq<Task>, t: Task, g: string)
    requires t.group != g
    ensures DeriveGroupStatus(tasks + [t], g) == DeriveGroupStatus(tasks, g)
  {
    FilterAppend(tasks, [t], GroupIs(g));
    assert Filter([t], GroupIs(g)) == [] + Filter([t][1..], GroupIs(g));
    assert Filter(tasks + [t], GroupIs(g)) == Filter(tasks, GroupIs(g));
  }

  /** Some task of group `g` has status `s` (a missing status read as Not Started). */
  ghost predicate HasStatus(tasks: seq<Task>, g: string, s: string)
  {
    exists i :: 0 <= i < |tasks| && tasks[i].group == g && EffectiveStatus(tasks[i].status) == s
  }

  ghost predicate HasTask(tasks: seq<Task>, g: string)
  {
    exists i :: 0 <= i < |tasks| && tasks[i].group == g
  }

  ghost predicate AllCompleted(tasks: seq<Task>, g: string)
  {
    forall i :: 0 <= i < |tasks| && tasks[i].group == g ==> EffectiveStatus(tasks[i].status) == COMPLETED
  }

  lemma {:induction false} StatusesOfGroup(tasks: seq<Task>, g: string, s: string)
    ensures s in StatusesOf(Filter(tasks, GroupIs(g))) <==> HasStatus(tasks, g, s)
  {
    var groupTasks := Filter(tasks, GroupIs(g));
    if s in StatusesOf(groupTasks) {
      var t :| t in groupTasks && EffectiveStatus(t.status) == s;
      assert t in tasks && GroupIs(g)(t);
      var i :| 0 <= i < |tasks| && tasks[i] == t;
      assert tasks[i].group == g && EffectiveStatus(tasks[i].status) == s;
    }
    if HasStatus(tasks, g, s) {
      var i :| 0 <= i < |tasks| && tasks[i].group == g && EffectiveStatus(tasks[i].status) == s;
      assert GroupIs(g)(tasks[i]);
      assert tasks[i] in groupTasks;
    }
  }

  lemma {:induction false} GroupTasksPresent(tasks: seq<Task>, g: string)
    ensures |Filter(tasks, GroupIs(g))| == 0 <==> !HasTask(tasks, g)
    ensures (forall t :: t in Filter(tasks, GroupIs(g)) ==> EffectiveStatus(t.status) == COMPLETED)
            <==> AllCompleted(tasks, g)
  {
    var groupTasks := Filter(tasks, GroupIs(g));
    if HasTask(tasks, g) {
      var i :| 0 <= i < |tasks| && tasks[i].group == g;
      assert GroupIs(g)(tasks[i]);
      assert tasks[i] in groupTasks;
    }
    if |groupTasks| != 0 {
      assert groupTasks[0] in groupTasks;
      var i :| 0 <= i < |tasks| && tasks[i] == groupTasks[0];
    }
    if forall t :: t in groupTasks ==> EffectiveStatus(t.status) == COMPLETED {
      forall i | 0 <= i < |tasks| && tasks[i].group == g
        ensures EffectiveStatus(tasks[i].status) == COMPLETED
      {
        assert GroupIs(g)(tasks[i]);
        assert tasks[i] in groupTasks;
      }
    }
    if AllCompleted(tasks, g) {
      forall t | t in groupTasks
        ensures EffectiveStatus(t.status) == COMPLETED
      {
        var i :| 0 <= i < |tasks| && tasks[i] == t;
      }
    }
  }

  /**
   * The status priority, stated on the task list itself: each outcome of
   * `DeriveGroupStatus` holds exactly when the statuses of the group's
   * tasks call for it.
   */
  lemma {:induction false} DeriveGroupStatusPriority(tasks: seq<Task>, g: string)
    ensures DeriveGroupStatus(tasks, g).None? <==> !HasTask(tasks, g)
    ensures DeriveGroupStatus(tasks, g) == Some(BLOCKED) <==> HasStatus(tasks, g, BLOCKED)
    ensures DeriveGroupStatus(tasks, g) == Some(ACTION_NEEDED)
            <==> HasStatus(tasks, g, ACTION_NEEDED) && !HasStatus(tasks, g, BLOCKED)
    ensures DeriveGroupStatus(tasks, g) == Some(DELAYED)
            <==> HasStatus(tasks, g, DELAYED) && !HasStatus(tasks, g, ACTION_NEEDED)
                 && !HasStatus(tasks, g, BLOCKED)
    ensures DeriveGroupStatus(tasks, g) == Some(IN_PROGRESS)
            <==> HasStatus(tasks, g, IN_PROGRESS) && !HasStatus(tasks, g, DELAYED)
                 && !HasStatus(tasks, g, ACTION_NEEDED) && !HasStatus(tasks, g, BLOCKED)
    ensures DeriveGroupStatus(tasks, g) == Some(COMPLETED)
            <==> HasTask(tasks, g) && AllCompleted(tasks, g)
    ensures DeriveGroupStatus(tasks, g) == Some(NOT_STARTED)
            <==> HasTask(tasks, g) && !AllCompleted(tasks, g) && !HasStatus(tasks, g, IN_PROGRESS)
                 && !HasStatus(tasks, g, DELAYED) && !HasStatus(tasks, g, ACTION_NEEDED)
                 && !HasStatus(tasks, g, BLOCKED)
  {
    GroupTasksPresent(tasks, g);
    StatusesOfGroup(tasks, g, BLOCKED);
    StatusesOfGroup(tasks, g, ACTION_NEEDED);
    StatusesOfGroup(tasks, g, DELAYED);
    StatusesOfGroup(tasks, g, IN_PROGRESS);
    if HasTask(tasks, g) && AllCompleted(tasks, g) {
      var i :| 0 <= i < |tasks| && tasks[i].group == g;
      assert !HasStatus(tasks, g, BLOCKED);
      assert !HasStatus(tasks, g, IN_PROGRESS);
      assert !HasStatus(tasks, g, DELAYED);
      assert !HasStatus(tasks, g, ACTION_NEEDED);
    }
  }

  /**
   * `applyAutoGroupStatus(g)` on the groups map: when `g` exists and has
   * tasks, a derived status that differs from the stored one replaces it,
   * together with that status's colour.
   */
  function AutoStatus(groups: map<string, Group>, tasks: seq<Task>, g: string): (r: map<string, Group>)
    ensures r.Keys == groups.Keys
    ensures forall h :: h in groups && h != g ==> r[h] == groups[h]
    ensures g in groups && DeriveGroupStatus(tasks, g).Some? ==>
              r[g].name == groups[g].name && r[g].status == DeriveGroupStatus(tasks, g)
              && (groups[g].status != DeriveGroupStatus(tasks, g) ==>
                    r[g].color == StatusColor(DeriveGroupStatus(tasks, g).value))
    ensures (g in groups && groups[g].status == DeriveGroupStatus(tasks, g)) ==> r == groups
    ensures (g !in groups || DeriveGroupStatus(tasks, g).None?) ==> r == groups
  {
    if g !in groups then groups
    else
      match DeriveGroupStatus(tasks, g)
      case None => groups
      case Some(auto) =>
        if groups[g].status == Some(auto) then groups
        else groups[g := groups[g].(status := Some(auto), color := StatusColor(auto))]
  }

  /** Re-deriving a status that was just derived changes nothing. */
  lemma {:induction false} AutoStatusIdempotent(groups: map<string, Group>, tasks: seq<Task>, g: string)
    ensures AutoStatus(AutoStatus(groups, tasks, g), tasks, g) == AutoStatus(groups, tasks, g)
  {
  }

  /** `groups[g] = { name: g, color }` unless `groups[g]` exists. */
  function WithGroup(groups: map<string, Group>, g: string, color: string): (r: map<string, Group>)
    ensures r.Keys == groups.Keys + {g}
    ensures forall h :: h in groups ==> r[h] == groups[h]
    ensures g !in groups ==> r[g] == Group(g, color, None)
  {
    if g in groups then groups else groups[g := Group(g, color, None)]
  }

  /** The `forEach` of a group rename: every task of `g` moves to `newName`. */
  function RenameGroupOfTasks(tasks: seq<Task>, g: string, newName: string): (r: seq<Task>)
    ensures |r| == |tasks|
    ensures forall i :: 0 <= i < |tasks| ==> r[i].id == tasks[i].id && r[i].status == tasks[i].status
    ensures forall i :: 0 <= i < |tasks| ==>
              (r[i].group == newName <==> tasks[i].group == g || tasks[i].group == newName)
  {
    seq(|tasks|, i requires 0 <= i < |tasks| =>
      if tasks[i].group == g then tasks[i].(group := newName) else tasks[i])
  }

  /** Renaming a group to a name no task uses keeps the group's derived status. */
  lemma {:induction false} RenameKeepsStatus(tasks: seq<Task>, g: string, newName: string)
    requires forall i :: 0 <= i < |tasks| ==> tasks[i].group != newName
    ensures DeriveGroupStatus(RenameGroupOfTasks(tasks, g, newName), newName) == DeriveGroupStatus(tasks, g)
  {
    var r := RenameGroupOfTasks(tasks, g, newName);
    RenameKeepsMembers(tasks, g, newName);
    RenameKeepsStatuses(tasks, g, newName);
    DeriveGroupStatusPriority(tasks, g);
    DeriveGroupStatusPriority(r, newName);
  }

  lemma {:induction false} RenameKeepsMembers(tasks: seq<Task>, g: string, newName: string)
    requires forall i :: 0 <= i < |tasks| ==> tasks[i].group != newName
    ensures HasTask(RenameGroupOfTasks(tasks, g, newName), newName) <==> HasTask(tasks, g)
    ensures AllCompleted(RenameGroupOfTasks(tasks, g, newName), newName) <==> AllCompleted(tasks, g)
  {
    var r := RenameGroupOfTasks(tasks, g, newName);
    if HasTask(tasks, g) {
      var i :| 0 <= i < |tasks| && tasks[i].group == g;
      assert r[i].group == newName;
    }
    if HasTask(r, newName) {
      var i :| 0 <= i < |r| && r[i].group == newName;
      assert tasks[i].group == g;
    }
    if AllCompleted(tasks, g) {
      forall i | 0 <= i < |r| && r[i].group == newName
        ensures EffectiveStatus(r[i].status) == COMPLETED
      {
        assert tasks[i].group == g;
      }
    }
    if AllCompleted(r, newName) {
      forall i | 0 <= i < |tasks| && tasks[i].group == g
        ensures EffectiveStatus(tasks[i].status) == COMPLETED
      {
        assert r[i].group == newName;
      }
    }
  }

  lemma {:induction false} RenameKeepsStatuses(tasks: seq<Task>, g: string, newName: string)
    requires forall i :: 0 <= i < |tasks| ==> tasks[i].group != newName
    ensures forall s :: HasStatus(RenameGroupOfTasks(tasks, g, newName), newName, s) <==> HasStatus(tasks, g, s)
  {
    var r := RenameGroupOfTasks(tasks, g, newName);
    forall s
      ensures HasStatus(r, newName, s) <==> HasStatus(tasks, g, s)
    {
      if HasStatus(tasks, g, s) {
        var i :| 0 <= i < |tasks| && tasks[i].group == g && EffectiveStatus(tasks[i].status) == s;
        assert r[i].group == newName && EffectiveStatus(r[i].status) == s;
      }
      if HasStatus(r, newName, s) {
        var i :| 0 <= i < |r| && r[i].group == newName && EffectiveStatus(r[i].status) == s;
        assert tasks[i].group == g;
      }
    }
  }

  /**
   * `reorderGroups` on `groupOrder`: the dragged name is cut out at its
   * index and put back at the index the target had before the cut.
   */
  function MoveName(order: seq<string>, from: nat, to: nat): (r: seq<string>)
    requires from < |order| && to < |order|
    ensures |r| == |order|
  {
    InsertAt(RemoveAt(order, from), to, order[from])
  }

  /**
   * Moving a group keeps the same names, lands the dragged one at the
   * target's old index and leaves the others in their order; so it ends
   * just after the target when it came from above, just before it when it
   * came from below, and nowhere new when it is the target.
   */
  lemma {:induction false} MoveNamePlacement(order: seq<string>, from: nat, to: nat)
    requires from < |order| && to < |order|
    ensures multiset(MoveName(order, from, to)) == multiset(order)
    ensures MoveName(order, from, to)[to] == order[from]
    ensures RemoveAt(MoveName(order, from, to), to) == RemoveAt(order, from)
    ensures from < to ==> MoveName(order, from, to)[to - 1] == order[to]
    ensures to < from ==> MoveName(order, from, to)[to + 1] == order[to]
    ensures from == to ==> MoveName(order, from, to) == order
  {
    var rest := RemoveAt(order, from);
    assert MoveName(order, from, to) == InsertAt(rest, to, order[from]);
    RemoveInserted(rest, to, order[from]);
    if from == to {
      InsertRemoved(order, from);
    }
  }

  /** Cutting out what was just inserted gives the list back. */
  lemma {:induction false} RemoveInserted<T>(s: seq<T>, i: nat, x: T)
    requires i <= |s|
    ensures RemoveAt(InsertAt(s, i, x), i) == s
  {
    var back := RemoveAt(InsertAt(s, i, x), i);
    assert forall j :: 0 <= j < |s| ==> back[j] == s[j];
  }

  /** Putting an element back where it was cut out gives the list back. */
  lemma {:induction false} InsertRemoved<T>(s: seq<T>, i: nat)
    requires i < |s|
    ensures InsertAt(RemoveAt(s, i), i, s[i]) == s
  {
    var r := InsertAt(RemoveAt(s, i), i, s[i]);
    assert forall j :: 0 <= j < |s| ==> r[j] == s[j];
  }

  /**
   * The same-group branch of `reorderTasks`: the dragged task is cut out
   * at `from`, the target is looked up again in what is left, and the
   * dragged task is spliced in at that index.
   */
  function MoveTask(tasks: seq<Task>, from: nat, targetId: int): (r: seq<Task>)
    requires from < |tasks|
    ensures |r| == |tasks|
    ensures multiset(r) == multiset(tasks)
  {
    var rest := RemoveAt(tasks, from);
    InsertAt(rest, SpliceStart(FirstIndex(rest, IdIs(targetId)), |rest|), tasks[from])
  }

  /** When the target is another task, the dragged task ends right in front of it. */
  lemma {:induction false} MoveTaskBeforeTarget(tasks: seq<Task>, from: nat, targetId: int)
    requires from < |tasks| && tasks[from].id != targetId
    requires exists i :: 0 <= i < |tasks| && tasks[i].id == targetId
    ensures var j := FirstIndex(RemoveAt(tasks, from), IdIs(targetId));
            0 <= j && MoveTask(tasks, from, targetId)[j] == tasks[from]
            && MoveTask(tasks, from, targetId)[j + 1].id == targetId
  {
    var rest := RemoveAt(tasks, from);
    TargetSurvivesCut(tasks, from, targetId);
    var j := FirstIndex(rest, IdIs(targetId));
    assert SpliceStart(j, |rest|) == j;
    var r := InsertAt(rest, j, tasks[from]);
    assert MoveTask(tasks, from, targetId) == r;
    assert r[j + 1] == rest[j];
  }

  /** Another task with the target id is still found once the dragged task is cut out. */
  lemma {:induction false} TargetSurvivesCut(tasks: seq<Task>, from: nat, targetId: int)
    requires from < |tasks| && tasks[from].id != targetId
    requires exists i :: 0 <= i < |tasks| && tasks[i].id == targetId
    ensures 0 <= FirstIndex(RemoveAt(tasks, from), IdIs(targetId))
  {
    var rest := RemoveAt(tasks, from);
    var i :| 0 <= i < |tasks| && tasks[i].id == targetId;
    if i < from {
      assert rest[i] == tasks[i] && IdIs(targetId)(rest[i]);
    } else {
      assert rest[i - 1] == tasks[i] && IdIs(targetId)(rest[i - 1]);
    }
  }

  /**
   * When the target is the dragged task itself (ids being unique), the
   * lookup after the cut fails, `splice(-1, 0, …)` counts from the end, and
   * the task lands in front of the last one.
   */
  lemma {:induction false} MoveTaskOntoItself(tasks: seq<Task>, from: nat)
    requires from < |tasks|
    requires forall i :: 0 <= i < |tasks| && i != from ==> tasks[i].id != tasks[from].id
    requires |tasks| >= 2
    ensures MoveTask(tasks, from, tasks[from].id)[|tasks| - 2] == tasks[from]
  {
    var rest := RemoveAt(tasks, from);
    forall j | 0 <= j < |rest|
      ensures !IdIs(tasks[from].id)(rest[j])
    {
      if j < from {
        assert rest[j] == tasks[j];
      } else {
        assert rest[j] == tasks[j + 1];
      }
    }
    assert FirstIndex(rest, IdIs(tasks[from].id)) == -1;
  }

  /** `toggleAllGroups`: every state becomes `false` when all were `true`, else `true`. */
  function ToggleAll(states: map<string, bool>): (r: map<string, bool>)
    ensures r.Keys == states.Keys
  {
    var allExpanded := forall h :: h in states ==> states[h];
    map h | h in states :: !allExpanded
  }

  /**
   * After toggling all groups they share one state: collapsed when all
   * were expanded, expanded otherwise; toggling again flips them all.
   */
  lemma {:induction false} ToggleAllUniform(states: map<string, bool>)
    ensures (forall h :: h in states ==> states[h]) ==>
              forall h :: h in ToggleAll(states) ==> !ToggleAll(states)[h]
    ensures (exists h :: h in states && !states[h]) ==>
              forall h :: h in ToggleAll(states) ==> ToggleAll(states)[h]
    ensures (exists h :: h in states && !states[h]) ==>
              forall h :: h in states ==> !ToggleAll(ToggleAll(states))[h]
  {
  }
}

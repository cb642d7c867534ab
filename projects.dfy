/**
 * The project list: `projects`, `activeProjectIndex` and the globals that
 * hold the active project's data while it is edited, with the functions
 * that add, switch, delete, duplicate and load projects. The JSON deep
 * copies between the list and the globals are value copies here.
 */
module Projects {
  import opened Text
  import opened Records
  import Board

  datatype Milestone = Milestone(id: int, name: string, date: string)

  /** What a project holds besides its name; while it is active, the globals hold a copy. */
  datatype Content = Content(tasks: seq<Task>, milestones: seq<Milestone>, groups: map<string, Group>,
                             groupStates: map<string, bool>, groupOrder: seq<string>)

  datatype Project = Project(name: string, content: Content)

  const EMPTY_CONTENT := Content([], [], map[], map[], [])

  /** `makeEmptyProject(name)`. */
  function MakeEmptyProject(name: string): Project
  {
    Project(name, EMPTY_CONTENT)
  }

  /** `name || 'Untitled'`: a missing or empty name reads as Untitled. */
  function NameOrUntitled(name: string): (r: string)
    ensures r != ""
    ensures name != "" ==> r == name
  {
    if name == "" then "Untitled" else name
  }

  function OrElse<T>(o: Option<T>, default: T): T
  {
    if o.Some? then o.value else default
  }

  /**
   * A project object as read from a file, before normalisation: `None` is
   * a missing (or falsy) member, an empty `name` a missing or empty name,
   * and `groupKeys` is `Object.keys(groups)`, the key order of the file.
   */
  datatype RawProject = RawProject(name: string, tasks: Option<seq<Task>>, milestones: Option<seq<Milestone>>,
                                   groups: Option<map<string, Group>>, groupKeys: seq<string>,
                                   groupStates: Option<map<string, bool>>, groupOrder: Option<seq<string>>)

  /** A raw project whose key list names each of its groups once. */
  ghost predicate WellKeyed(p: RawProject)
  {
    (forall h :: multiset(p.groupKeys)[h] <= 1)
    && (forall h :: h in p.groupKeys <==> p.groups.Some? && h in p.groups.value)
  }

  /**
   * `normalizeProject`: every member present, a missing name Untitled and
   * a missing order the groups in key order.
   */
  function NormalizeProject(p: RawProject): (r: Project)
    ensures r.name != ""
    ensures p.name != "" ==> r.name == p.name
    ensures p.tasks == None ==> r.content.tasks == []
    ensures p.groups == None ==> r.content.groups == map[] && r.content.groupOrder == OrElse(p.groupOrder, [])
    ensures WellKeyed(p) && p.groupOrder == None ==> Board.ListsOnce(r.content.groupOrder, r.content.groups)
  {
    Project(NameOrUntitled(p.name),
            Content(OrElse(p.tasks, []), OrElse(p.milestones, []), OrElse(p.groups, map[]),
                    OrElse(p.groupStates, map[]),
                    OrElse(p.groupOrder, if p.groups.Some? then p.groupKeys else [])))
  }

  /** A project written out with every member present. */
  function Raw(p: Project): RawProject
  {
    RawProject(p.name, Some(p.content.tasks), Some(p.content.milestones), Some(p.content.groups), [],
               Some(p.content.groupStates), Some(p.content.groupOrder))
  }

  /** Normalising a project that is already normal (a named project with all members) changes nothing. */
  lemma {:induction false} NormalizeNormal(p: Project)
    requires p.name != ""
    ensures NormalizeProject(Raw(p)) == p
  {
  }

  /** `projects.map(normalizeProject)`. */
  function NormalizeAll(ps: seq<RawProject>): (r: seq<Project>)
    ensures |r| == |ps|
    ensures forall i :: 0 <= i < |ps| ==> r[i] == NormalizeProject(ps[i])
  {
    seq(|ps|, i requires 0 <= i < |ps| => NormalizeProject(ps[i]))
  }

  /** Every project has a name. */
  ghost predicate AllNamed(ps: seq<Project>)
  {
    forall i :: 0 <= i < |ps| ==> ps[i].name != ""
  }

  lemma {:induction false} NormalizeAllNamed(ps: seq<RawProject>)
    ensures AllNamed(NormalizeAll(ps))
  {
    var r := NormalizeAll(ps);
    forall i | 0 <= i < |r| ensures r[i].name != "" {
      assert r[i] == NormalizeProject(ps[i]);
    }
  }

  lemma {:induction false} AppendNamed(a: seq<Project>, b: seq<Project>)
    requires AllNamed(a) && AllNamed(b)
    ensures AllNamed(a + b)
  {
    forall i | 0 <= i < |a + b| ensures (a + b)[i].name != "" {
      if i >= |a| {
        assert (a + b)[i] == b[i - |a|];
      }
    }
  }

  /** `Math.min(Math.max(0, index), len - 1)`. */
  function ClampIndex(index: int, len: nat): (r: int)
    ensures len > 0 ==> 0 <= r < len
    ensures 0 <= index < len ==> r == index
    ensures len == 0 ==> r == -1
  {
    var lo := if index < 0 then 0 else index;
    if lo < len - 1 then lo else len - 1
  }

  /**
   * The active index after project `index` is spliced out of a list of at
   * least two: one less when it was after `index`, the previous project
   * (or the first) when it was `index`, unchanged otherwise.
   */
  function ActiveAfterDelete(active: int, index: nat): (r: int)
    ensures 0 <= active ==> 0 <= r <= active
    ensures active != index ==> (r == active <==> active < index)
  {
    if active > index then active - 1
    else if active == index then (if active - 1 < 0 then 0 else active - 1)
    else active
  }

  /**
   * Deleting another project keeps the same project active, and deleting
   * the active one activates the project before it (or the new first one).
   */
  lemma {:induction false} ActiveAfterDeleteKeepsProject(s: seq<Project>, index: nat, active: int)
    requires index < |s| && 2 <= |s| && 0 <= active < |s|
    ensures 0 <= ActiveAfterDelete(active, index) < |s| - 1
    ensures active != index ==> RemoveAt(s, index)[ActiveAfterDelete(active, index)] == s[active]
    ensures active == index && index > 0 ==> RemoveAt(s, index)[ActiveAfterDelete(active, index)] == s[index - 1]
    ensures active == index && index == 0 ==> RemoveAt(s, index)[ActiveAfterDelete(active, index)] == s[1]
  {
  }

  /** The `n`-th name `duplicateProject` tries: `base`, then `base 2`, `base 3`, ... */
  function Candidate(base: string, n: nat): (r: string)
    ensures |r| >= |base| && r[..|base|] == base
  {
    if n <= 1 then base else base + " " + NatToString(n)
  }

  lemma {:induction false} CandidateInjective(base: string, a: nat, b: nat)
    requires 1 <= a && 1 <= b && Candidate(base, a) == Candidate(base, b)
    ensures a == b
  {
    if a >= 2 && b >= 2 {
      var x := Candidate(base, a);
      assert x[|base| + 1..] == NatToString(a);
      assert Candidate(base, b)[|base| + 1..] == NatToString(b);
      NatToStringInjective(a, b);
    }
  }

  /** The first `n` candidates. */
  function CandidatesUpTo(base: string, n: nat): (r: set<string>)
    ensures OnlyCandidates(base, n, r)
    ensures forall j :: 1 <= j <= n ==> Candidate(base, j) in r
  {
    if n == 0 then {}
    else
      var prev := CandidatesUpTo(base, n - 1);
      OnlyCandidatesStep(base, n, prev);
      prev + {Candidate(base, n)}
  }

  /** Every name in `r` is one of the first `n` candidates. */
  ghost predicate OnlyCandidates(base: string, n: nat, r: set<string>)
  {
    forall x :: x in r ==> exists j :: 1 <= j <= n && x == Candidate(base, j)
  }

  lemma {:induction false} OnlyCandidatesStep(base: string, n: nat, prev: set<string>)
    requires n >= 1 && OnlyCandidates(base, n - 1, prev)
    ensures OnlyCandidates(base, n, prev + {Candidate(base, n)})
  {
    forall x | x in prev + {Candidate(base, n)}
      ensures exists j :: 1 <= j <= n && x == Candidate(base, j)
    {
      if x in prev {
        var j :| 1 <= j <= n - 1 && x == Candidate(base, j);
        assert 1 <= j <= n && x == Candidate(base, j);
      } else {
        assert 1 <= n <= n && x == Candidate(base, n);
      }
    }
  }

  /** The first `n` candidates are `n` different names. */
  lemma {:induction false} CandidatesUpToCount(base: string, n: nat)
    ensures |CandidatesUpTo(base, n)| == n
  {
    if n > 0 {
      CandidatesUpToCount(base, n - 1);
      if Candidate(base, n) in CandidatesUpTo(base, n - 1) {
        var j :| 1 <= j <= n - 1 && Candidate(base, n) == Candidate(base, j);
        CandidateInjective(base, n, j);
      }
    }
  }

  lemma {:induction false} SubsetSize<T>(a: set<T>, b: set<T>)
    requires a <= b
    ensures |a| <= |b|
  {
    assert b == a + (b - a);
  }

  /**
   * The unique-name loop of `duplicateProject`: the first candidate not in
   * `names`, with its position in the candidate list.
   */
  method UniqueName(base: string, names: set<string>) returns (name: string, n: nat)
    ensures 1 <= n && name == Candidate(base, n) && name !in names
    ensures forall j :: 1 <= j < n ==> Candidate(base, j) in names
  {
    name := base;
    n := 1;
    while name in names
      invariant 1 <= n && name == Candidate(base, n)
      invariant forall j :: 1 <= j < n ==> Candidate(base, j) in names
      invariant n <= |names| + 1
      decreases |names| + 1 - n
    {
      assert CandidatesUpTo(base, n) <= names;
      CandidatesUpToCount(base, n);
      SubsetSize(CandidatesUpTo(base, n), names);
      n := n + 1;
      name := Candidate(base, n);
    }
  }

  /** The name each project is known by in `duplicateProject`'s name set. */
  function NamesOf(ps: seq<Project>): (r: set<string>)
    ensures forall i :: 0 <= i < |ps| ==> NameOrUntitled(ps[i].name) in r
  {
    set i | 0 <= i < |ps| :: NameOrUntitled(ps[i].name)
  }

  /** The projects after `syncActiveFromGlobals`: the active one takes a copy of the globals. */
  function Synced(ps: seq<Project>, active: int, current: Content): (r: seq<Project>)
    ensures |r| == |ps|
    ensures forall i :: 0 <= i < |ps| && i != active ==> r[i] == ps[i]
    ensures 0 <= active < |ps| ==> r[active] == ps[active].(content := current)
  {
    if 0 <= active < |ps| then ps[active := ps[active].(content := current)] else ps
  }

  /** What `loadDataFromObject` was given: an object (a version-3 file, a single project or both) or an array. */
  datatype Payload =
    | FileObject(v3Projects: Option<seq<RawProject>>, activeIndex: int, asProject: Option<RawProject>)
    | FileArray(items: seq<RawProject>)
  {
    /** `version === '3.0'` with a `projects` array. */
    predicate IsV3() { FileObject? && v3Projects.Some? }
    /** A `tasks` array or a `groups` object at the top. */
    predicate IsV2() { FileObject? && asProject.Some? }
    /** A non-empty array of project objects. */
    predicate IsProjectsArray() { FileArray? && items != [] }
  }

  datatype LoadMode = ReplaceAll | Append | IntoActive | OtherMode

  /**
   * What `loadDataFromObject` in `intoActive` mode writes for a single
   * project: the file's name (or the active project's), its tasks, groups,
   * states and order, and no milestones.
   */
  function IntoActiveProject(data: RawProject, activeName: string): Project
  {
    NormalizeProject(RawProject(if data.name != "" then data.name else activeName,
                                Some(OrElse(data.tasks, [])), None, Some(OrElse(data.groups, map[])),
                                if data.groups.Some? then data.groupKeys else [],
                                Some(OrElse(data.groupStates, map[])),
                                Some(OrElse(data.groupOrder, if data.groups.Some? then data.groupKeys else []))))
  }

  /** `normalizeProject({ name: 'Project 1' })`: the project `intoActive` gives an empty list. */
  const FIRST_PROJECT: Project := NormalizeProject(RawProject("Project 1", None, None, None, [], None, None))

  /** `normalizeProject({})`: what `intoActive` reads when the active slot is empty. */
  const BLANK_PROJECT: Project := NormalizeProject(RawProject("", None, None, None, [], None, None))

  /**
   * `projects[i]`: the element at an index of the list; at -1 the array's
   * `"-1"` property, which `stray` holds; nothing at any other index.
   */
  function Slot(ps: seq<Project>, stray: Option<Project>, i: int): Option<Project>
  {
    if 0 <= i < |ps| then Some(ps[i]) else if i == -1 then stray else None
  }

  /**
   * `projects[i] = p` for an active index `i`: an index of the list gets
   * the element, -1 gets the `"-1"` property and the list stays as it is.
   */
  function Written(ps: seq<Project>, stray: Option<Project>, i: int, p: Project): (r: (seq<Project>, Option<Project>))
    ensures Slot(r.0, r.1, i) == (if 0 <= i < |ps| || i == -1 then Some(p) else Slot(ps, stray, i))
    ensures |r.0| == |ps| && forall j :: 0 <= j < |ps| && j != i ==> r.0[j] == ps[j]
    ensures i != -1 ==> r.1 == stray
  {
    if 0 <= i < |ps| then (ps[i := p], stray) else if i == -1 then (ps, Some(p)) else (ps, stray)
  }

  /** `syncActiveFromGlobals` on the `"-1"` property: it takes the globals when it exists and is active. */
  function StraySynced(stray: Option<Project>, active: int, current: Content): Option<Project>
  {
    if active == -1 && stray.Some? then Some(stray.value.(content := current)) else stray
  }

  /** The globals after `syncGlobalsFromActive`: the active slot's content, or the old globals when it is empty. */
  function Loaded(ps: seq<Project>, stray: Option<Project>, active: int, current: Content): Content
  {
    var p := Slot(ps, stray, active);
    if p.Some? then p.value.content else current
  }

  /** The projects `append` adds. */
  function AppendedItems(data: Payload): seq<RawProject>
  {
    if data.IsV3() then data.v3Projects.value
    else if data.IsProjectsArray() then data.items
    else if data.IsV2() then [data.asProject.value]
    else []
  }

  /** A version-3 file of exactly one project, which `intoActive` writes over the active one. */
  predicate IsSingleV3(data: Payload)
  {
    data.IsV3() && |data.v3Projects.value| == 1
  }

  /** The projects the `intoActive` fallback appends: a version-3 file's, or an array's. */
  function FallbackItems(data: Payload): seq<RawProject>
  {
    if data.IsV3() then data.v3Projects.value
    else if data.IsProjectsArray() then data.items
    else []
  }

  class Workspace {
    var projects: seq<Project>
    var active: int
    /** The globals `tasks`, `milestones`, `groups`, `groupStates` and `groupOrder`. */
    var current: Content
    /**
     * `projects[-1]`: a property, not an element, of the array. An
     * `intoActive` load writes it when the active index is -1; an array
     * built anew has none.
     */
    var stray: Option<Project>

    /**
     * The active index is -1 (a version-3 file with no projects), 0 on an
     * empty list, or the index of a project; every project has a name.
     */
    ghost predicate Valid()
      reads this
    {
      -1 <= active && (active < |projects| || active == 0) && AllNamed(projects)
    }

    constructor ()
      ensures projects == [] && active == 0 && current == EMPTY_CONTENT && stray == None
      ensures Valid()
    {
      projects := [];
      active := 0;
      current := EMPTY_CONTENT;
      stray := None;
    }

    /** `syncActiveFromGlobals`. */
    method SyncActiveFromGlobals()
      modifies this
      ensures projects == Synced(old(projects), active, current)
      ensures stray == StraySynced(old(stray), active, current)
      ensures active == old(active) && current == old(current)
    {
      if 0 <= active < |projects| {
        projects := projects[active := projects[active].(content := current)];
      } else if active == -1 && stray.Some? {
        stray := Some(stray.value.(content := current));
      }
    }

    /** `syncGlobalsFromActive`. */
    method SyncGlobalsFromActive()
      modifies this
      ensures current == if 0 <= active < |projects| then projects[active].content
                         else if active == -1 && stray.Some? then stray.value.content
                         else old(current)
      ensures current == Loaded(projects, stray, active, old(current))
      ensures projects == old(projects) && active == old(active) && stray == old(stray)
    {
      if 0 <= active < |projects| {
        current := projects[active].content;
      } else if active == -1 && stray.Some? {
        current := stray.value.content;
      }
    }

    /** `addProject`: an empty project named after the new count is appended and activated. */
    method AddProject()
      modifies this
      ensures projects == old(projects) + [MakeEmptyProject("Project " + NatToString(|old(projects)|+ 1))]
      ensures active == |projects| - 1 && current == EMPTY_CONTENT && stray == old(stray)
      ensures old(Valid()) ==> Valid()
    {
      projects := projects + [MakeEmptyProject("Project " + NatToString(|projects| + 1))];
      active := |projects| - 1;
      SyncGlobalsFromActive();
    }

    /** `switchProject`: the globals are saved into the active project, then the chosen one is loaded. */
    method SwitchProject(index: int)
      modifies this
      ensures index == old(active) ==> unchanged(this)
      ensures index != old(active) ==>
                projects == Synced(old(projects), old(active), old(current)) && active == index
                && stray == StraySynced(old(stray), old(active), old(current))
                && current == Loaded(projects, stray, index, old(current))
      ensures old(Valid()) && 0 <= index < |projects| ==> Valid()
    {
      if index == active {
        return;
      }
      SyncActiveFromGlobals();
      active := index;
      SyncGlobalsFromActive();
    }

    /**
     * `deleteProject`: on confirmation the project goes; the last project
     * is replaced by an empty "Project 1", and the active index follows
     * the project it pointed at (or the one before a deleted active one).
     */
    method DeleteProject(index: int, confirmed: bool)
      modifies this
      ensures !(0 <= index < |old(projects)|) || !confirmed ==> unchanged(this)
      ensures 0 <= index < |old(projects)| && confirmed && |old(projects)| == 1 ==>
                projects == [MakeEmptyProject("Project 1")] && active == 0 && current == EMPTY_CONTENT && stray == None
      ensures 0 <= index < |old(projects)| && confirmed && |old(projects)| > 1 ==>
                projects == RemoveAt(old(projects), index) && active == ActiveAfterDelete(old(active), index)
                && stray == old(stray) && current == Loaded(projects, stray, active, old(current))
      ensures 0 <= index < |old(projects)| && confirmed && |old(projects)| > 1 && 0 <= old(active) < |old(projects)|
              && old(active) != index ==>
                projects[active] == old(projects)[old(active)]
      ensures old(Valid()) ==> Valid()
    {
      if !(0 <= index < |projects|) || !confirmed {
        return;
      }
      if |projects| <= 1 {
        projects := [MakeEmptyProject("Project 1")];
        active := 0;
        stray := None;
      } else {
        if 0 <= active < |projects| {
          ActiveAfterDeleteKeepsProject(projects, index, active);
        }
        projects := RemoveAt(projects, index);
        if active > index {
          active := active - 1;
        } else if active == index {
          active := if active - 1 < 0 then 0 else active - 1;
        }
      }
      SyncGlobalsFromActive();
    }

    /**
     * `duplicateProject`: the globals are saved, a copy of the project is
     * inserted right after it under the first free name among "NAME
     * (copy)", "NAME (copy) 2", ..., and the copy becomes active.
     */
    method DuplicateProject(index: int)
      modifies this
      ensures !(0 <= index < |old(projects)|) ==> unchanged(this)
      ensures 0 <= index < |old(projects)| ==>
                var saved := Synced(old(projects), old(active), old(current));
                var base := NameOrUntitled(saved[index].name) + " (copy)";
                |projects| == |saved| + 1 && active == index + 1
                && stray == StraySynced(old(stray), old(active), old(current))
                && projects == InsertAt(saved, index + 1, saved[index].(name := projects[index + 1].name))
                && current == saved[index].content
                && projects[index + 1].name !in NamesOf(saved)
                && (exists n :: 1 <= n && projects[index + 1].name == Candidate(base, n)
                                && forall j :: 1 <= j < n ==> Candidate(base, j) in NamesOf(saved))
      ensures old(Valid()) ==> Valid()
    {
      if !(0 <= index < |projects|) {
        return;
      }
      SyncActiveFromGlobals();
      var source := projects[index];
      var base := NameOrUntitled(source.name) + " (copy)";
      var name, n := UniqueName(base, NamesOf(projects));
      var clone := source.(name := name);
      projects := InsertAt(projects, index + 1, clone);
      active := index + 1;
      SyncGlobalsFromActive();
    }

    /**
     * `loadDataFromObject`: `replaceAll` replaces the list (a version-3
     * file keeps its active index, clamped), `append` adds the file's
     * projects after the existing ones, `intoActive` writes a single
     * project over the active one and appends several; then the globals
     * are loaded from the active project.
     */
    method LoadDataFromObject(data: Payload, mode: LoadMode)
      modifies this
      ensures mode == ReplaceAll && data.IsV3() ==>
                projects == NormalizeAll(data.v3Projects.value)
                && active == ClampIndex(data.activeIndex, |data.v3Projects.value|) && stray == None
      ensures mode == ReplaceAll && !data.IsV3() && data.IsV2() ==>
                projects == [NormalizeProject(data.asProject.value)] && active == 0 && stray == None
      ensures mode == ReplaceAll && !data.IsV3() && data.IsProjectsArray() ==>
                projects == NormalizeAll(data.items) && active == 0 && stray == None
      ensures mode == Append ==>
                projects == old(projects) + NormalizeAll(AppendedItems(data)) && active == old(active) && stray == old(stray)
      ensures mode == IntoActive ==>
                var wasEmpty := old(projects) == [];
                var ps := if wasEmpty then [FIRST_PROJECT] else old(projects);
                var st := if wasEmpty then None else old(stray);
                var a := if wasEmpty then 0 else old(active);
                active == a
                && (data.IsV2() ==>
                      (projects, stray)
                      == Written(ps, st, a, IntoActiveProject(data.asProject.value, OrElse(Slot(ps, st, a), BLANK_PROJECT).name)))
                && (!data.IsV2() && IsSingleV3(data) ==>
                      (projects, stray) == Written(ps, st, a, NormalizeProject(data.v3Projects.value[0])))
                && (!data.IsV2() && !IsSingleV3(data) ==>
                      projects == ps + NormalizeAll(FallbackItems(data)) && stray == st)
      ensures mode == IntoActive && old(projects) == [] ==>
                active == 0 && stray == None
                && (data.IsV2() ==> projects == [IntoActiveProject(data.asProject.value, "Project 1")])
                && (!data.IsV2() && IsSingleV3(data) ==> projects == [NormalizeProject(data.v3Projects.value[0])])
                && (!data.IsV2() && !IsSingleV3(data) ==> projects == [FIRST_PROJECT] + NormalizeAll(FallbackItems(data)))
      ensures (mode == ReplaceAll && !data.IsV3() && !data.IsV2() && !data.IsProjectsArray()) || mode == OtherMode ==>
                projects == old(projects) && active == old(active) && stray == old(stray)
      ensures current == Loaded(projects, stray, active, old(current))
      ensures old(Valid()) ==> Valid()
    {
      match mode {
      case ReplaceAll =>
        if data.IsV3() {
          projects := NormalizeAll(data.v3Projects.value);
          NormalizeAllNamed(data.v3Projects.value);
          active := ClampIndex(data.activeIndex, |projects|);
          stray := None;
        } else if data.IsV2() {
          projects := [NormalizeProject(data.asProject.value)];
          active := 0;
          stray := None;
        } else if data.IsProjectsArray() {
          projects := NormalizeAll(data.items);
          NormalizeAllNamed(data.items);
          active := 0;
          stray := None;
        }
      case Append =>
        var added := AppendedItems(data);
        NormalizeAllNamed(added);
        if AllNamed(projects) {
          AppendNamed(projects, NormalizeAll(added));
        }
        projects := projects + NormalizeAll(added);
      case IntoActive =>
        LoadIntoActive(data);
      case OtherMode =>
      }
      SyncGlobalsFromActive();
    }

    /**
     * The `intoActive` branch of `loadDataFromObject`: an empty list first
     * gets a "Project 1"; a single project (version 2, or a version-3 file
     * of one) is written into the active slot, which is the `"-1"`
     * property when the active index is -1; several are appended.
     */
    method LoadIntoActive(data: Payload)
      modifies this
      ensures var wasEmpty := old(projects) == [];
              var ps := if wasEmpty then [FIRST_PROJECT] else old(projects);
              var st := if wasEmpty then None else old(stray);
              var a := if wasEmpty then 0 else old(active);
              active == a
              && (data.IsV2() ==>
                    (projects, stray)
                    == Written(ps, st, a, IntoActiveProject(data.asProject.value, OrElse(Slot(ps, st, a), BLANK_PROJECT).name)))
              && (!data.IsV2() && IsSingleV3(data) ==>
                    (projects, stray) == Written(ps, st, a, NormalizeProject(data.v3Projects.value[0])))
              && (!data.IsV2() && !IsSingleV3(data) ==>
                    projects == ps + NormalizeAll(FallbackItems(data)) && stray == st)
      ensures old(projects) == [] ==>
                active == 0 && stray == None
                && (data.IsV2() ==> projects == [IntoActiveProject(data.asProject.value, "Project 1")])
                && (!data.IsV2() && IsSingleV3(data) ==> projects == [NormalizeProject(data.v3Projects.value[0])])
                && (!data.IsV2() && !IsSingleV3(data) ==> projects == [FIRST_PROJECT] + NormalizeAll(FallbackItems(data)))
      ensures current == old(current)
      ensures old(Valid()) ==> Valid()
    {
      StartList();
      var p := OrElse(Slot(projects, stray, active), BLANK_PROJECT);
      if data.IsV2() {
        WriteActive(IntoActiveProject(data.asProject.value, p.name));
      } else if IsSingleV3(data) {
        WriteActive(NormalizeProject(data.v3Projects.value[0]));
      } else {
        var toAppend := FallbackItems(data);
        NormalizeAllNamed(toAppend);
        if AllNamed(projects) {
          AppendNamed(projects, NormalizeAll(toAppend));
        }
        if |toAppend| > 0 {
          projects := projects + NormalizeAll(toAppend);
        }
      }
    }

    /** The start of `intoActive`: an empty list becomes a new array holding "Project 1", which is active. */
    method StartList()
      modifies this
      ensures old(projects) == [] ==> projects == [FIRST_PROJECT] && active == 0 && stray == None
      ensures old(projects) != [] ==> projects == old(projects) && active == old(active) && stray == old(stray)
      ensures current == old(current)
      ensures old(Valid()) ==> Valid() && projects != []
    {
      if projects == [] {
        projects := [FIRST_PROJECT];
        active := 0;
        stray := None;
      }
    }

    /** `projects[activeProjectIndex] = q`: the active element, or the `"-1"` property at index -1. */
    method WriteActive(q: Project)
      modifies this
      ensures (projects, stray) == Written(old(projects), old(stray), active, q)
      ensures active == old(active) && current == old(current)
      ensures old(Valid()) && q.name != "" ==> Valid()
    {
      if 0 <= active < |projects| {
        if AllNamed(projects) && q.name != "" {
          assert AllNamed(projects[active := q]);
        }
        projects := projects[active := q];
      } else if active == -1 {
        stray := Some(q);
      }
    }
  }
}

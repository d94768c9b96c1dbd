/** The task records of the todo list and the pure computations `App` performs
    on its task array: the filtered view, the replacement used by editing, the
    removal used by deleting, the list of assignees offered as filter choices,
    and the start-up choice between stored and seed tasks. */
module TaskModel {
  import opened Sequences

  datatype Option<T> = None | Some(value: T)

  /** The priority type, which includes the filter sentinel `"All"`. */
  datatype Priority = All | High | Medium | Low

  /** A task record; `id` is absent on a draft that has not been saved. */
  datatype Task = Task(id: Option<string>, task: string, assignee: string, priority: Priority)

  /** The assignee selection that matches every assignee. */
  const Wildcard: string := "All"

  /** JavaScript truthiness of an optional string: present and non-empty. */
  predicate Truthy(s: Option<string>)
  {
    s.Some? && s.value != ""
  }

  function Ids(ts: seq<Task>): (r: seq<Option<string>>)
  {
    seq(|ts|, i requires 0 <= i < |ts| => ts[i].id)
  }

  /** Every task has a truthy id and no two tasks share one. */
  predicate WellFormed(ts: seq<Task>)
  {
    && (forall i :: 0 <= i < |ts| ==> Truthy(ts[i].id))
    && (forall i, j :: 0 <= i < j < |ts| ==> ts[i].id != ts[j].id)
  }

  /** A subsequence of a well-formed collection is well formed. */
  lemma SubsequenceWellFormed(r: seq<Task>, ts: seq<Task>, idx: seq<nat>)
    requires WellFormed(ts) && IndexedSubsequence(r, ts, idx)
    ensures WellFormed(r)
  {
  }

  // ------------------------------------------------------------ filtered view

  /** The test the view applies to each task. */
  predicate Matches(t: Task, assigneeFilter: string, priorityFilter: Priority)
  {
    && (assigneeFilter == Wildcard || t.assignee == assigneeFilter)
    && (priorityFilter == All || t.priority == priorityFilter)
  }

  function Selection(assigneeFilter: string, priorityFilter: Priority): Task -> bool
  {
    (t: Task) => Matches(t, assigneeFilter, priorityFilter)
  }

  /** The visible tasks: the matching ones, newest first. */
  function FilteredTasks(ts: seq<Task>, assigneeFilter: string, priorityFilter: Priority): seq<Task>
  {
    Reverse(Keep(ts, Selection(assigneeFilter, priorityFilter)))
  }

  /** The view holds exactly the matching tasks, at most all of them, and read
      backwards it is the subsequence of the collection at exactly the
      positions whose task matches. */
  lemma {:induction false} FilteredTasksSpec(ts: seq<Task>, a: string, p: Priority)
    ensures |FilteredTasks(ts, a, p)| <= |ts|
    ensures forall t :: t in FilteredTasks(ts, a, p) <==> t in ts && Matches(t, a, p)
    ensures IndexedSubsequence(Reverse(FilteredTasks(ts, a, p)), ts, KeptIndices(ts, Selection(a, p)))
    ensures forall j: nat :: j < |ts| ==> (j in KeptIndices(ts, Selection(a, p)) <==> Matches(ts[j], a, p))
  {
    var kept := Keep(ts, Selection(a, p));
    ReverseMembers(kept);
    ReverseReverse(kept);
    assert Reverse(FilteredTasks(ts, a, p)) == kept;
    KeepIsSubsequence(ts, Selection(a, p));
  }

  /** With both selections at `"All"` the view is the whole collection reversed. */
  lemma {:induction false} FilteredAllIsReverse(ts: seq<Task>)
    ensures FilteredTasks(ts, Wildcard, All) == Reverse(ts)
  {
    KeepAll(ts, Selection(Wildcard, All));
  }

  /** A task appended to the collection appears first in the view when it
      matches, and the rest of the view is unchanged. */
  lemma FilteredAfterAppend(ts: seq<Task>, t: Task, a: string, p: Priority)
    ensures FilteredTasks(ts + [t], a, p)
         == (if Matches(t, a, p) then [t] else []) + FilteredTasks(ts, a, p)
  {
  }

  /** Selecting an assignee that exactly one task has shows that task alone. */
  lemma {:induction false} FilteredSingleAssignee(ts: seq<Task>, a: string, j: nat)
    requires a != Wildcard && j < |ts| && ts[j].assignee == a
    requires forall i :: 0 <= i < |ts| && i != j ==> ts[i].assignee != a
    ensures FilteredTasks(ts, a, All) == [ts[j]]
  {
    KeepOnly(ts, Selection(a, All), j);
  }

  // --------------------------------------------------------------------- edit

  /** Every task whose id equals `u.id` replaced by `u`. */
  function Edited(ts: seq<Task>, u: Task): seq<Task>
  {
    seq(|ts|, i requires 0 <= i < |ts| => if ts[i].id == u.id then u else ts[i])
  }

  /** Editing keeps the length and the id at every position; a position
      becomes `u` exactly when its id is `u.id`. */
  lemma EditedSpec(ts: seq<Task>, u: Task)
    ensures |Edited(ts, u)| == |ts| && Ids(Edited(ts, u)) == Ids(ts)
    ensures forall i :: 0 <= i < |ts| && ts[i].id == u.id ==> Edited(ts, u)[i] == u
    ensures forall i :: 0 <= i < |ts| && ts[i].id != u.id ==> Edited(ts, u)[i] == ts[i]
  {
  }

  /** Editing an id that no task has changes nothing. */
  lemma EditedAbsent(ts: seq<Task>, u: Task)
    requires forall i :: 0 <= i < |ts| ==> ts[i].id != u.id
    ensures Edited(ts, u) == ts
  {
  }

  lemma EditedIdempotent(ts: seq<Task>, u: Task)
    ensures Edited(Edited(ts, u), u) == Edited(ts, u)
  {
  }

  /** In a well-formed collection editing is a single-position update. */
  lemma EditedUpdatesOne(ts: seq<Task>, u: Task, j: nat)
    requires WellFormed(ts) && j < |ts| && ts[j].id == u.id
    ensures Edited(ts, u) == ts[j := u]
  {
  }

  lemma EditedWellFormed(ts: seq<Task>, u: Task)
    requires WellFormed(ts)
    ensures WellFormed(Edited(ts, u))
  {
  }

  // ------------------------------------------------------------------- delete

  function OtherId(id: Option<string>): Task -> bool
  {
    (t: Task) => t.id != id
  }

  /** The tasks whose id differs from `id`, in their original order. */
  function Removed(ts: seq<Task>, id: Option<string>): seq<Task>
  {
    Keep(ts, OtherId(id))
  }

  /** Removal keeps exactly the tasks with another id, as the subsequence at
      exactly those positions. */
  lemma {:induction false} RemovedSpec(ts: seq<Task>, id: Option<string>)
    ensures |Removed(ts, id)| <= |ts|
    ensures forall t :: t in Removed(ts, id) <==> t in ts && t.id != id
    ensures IndexedSubsequence(Removed(ts, id), ts, KeptIndices(ts, OtherId(id)))
    ensures forall j: nat :: j < |ts| ==> (j in KeptIndices(ts, OtherId(id)) <==> ts[j].id != id)
  {
    KeepIsSubsequence(ts, OtherId(id));
  }

  /** Deleting an id that no task has changes nothing. */
  lemma {:induction false} RemovedAbsent(ts: seq<Task>, id: Option<string>)
    requires forall i :: 0 <= i < |ts| ==> ts[i].id != id
    ensures Removed(ts, id) == ts
  {
    KeepAll(ts, OtherId(id));
  }

  /** Repeating a delete changes nothing more. */
  lemma {:induction false} RemovedIdempotent(ts: seq<Task>, id: Option<string>)
    ensures Removed(Removed(ts, id), id) == Removed(ts, id)
  {
    KeepAll(Removed(ts, id), OtherId(id));
  }

  /** In a well-formed collection deleting a present id drops just that task. */
  lemma {:induction false} RemovedDropsOne(ts: seq<Task>, j: nat)
    requires WellFormed(ts) && j < |ts|
    ensures Removed(ts, ts[j].id) == ts[..j] + ts[j + 1..]
    ensures |Removed(ts, ts[j].id)| == |ts| - 1
  {
    KeepDropsOne(ts, OtherId(ts[j].id), j);
  }

  /** Deleting a task just added under a new id undoes the addition. */
  lemma {:induction false} RemovedAfterAppend(ts: seq<Task>, t: Task)
    requires forall i :: 0 <= i < |ts| ==> ts[i].id != t.id
    ensures Removed(ts + [t], t.id) == ts
  {
    KeepAppend(ts, [t], OtherId(t.id));
    KeepAll(ts, OtherId(t.id));
    KeepNone([t], OtherId(t.id));
  }

  lemma {:induction false} RemovedWellFormed(ts: seq<Task>, id: Option<string>)
    requires WellFormed(ts)
    ensures WellFormed(Removed(ts, id))
  {
    RemovedSpec(ts, id);
    SubsequenceWellFormed(Removed(ts, id), ts, KeptIndices(ts, OtherId(id)));
  }

  // --------------------------------------------------------------------- save

  /** `freshId` may serve as the id of a new task in `ts`. */
  predicate IsFreshId(ts: seq<Task>, freshId: string)
  {
    freshId != "" && forall i :: 0 <= i < |ts| ==> ts[i].id != Some(freshId)
  }

  /** The collection after saving `t`: an edit when its id is truthy,
      otherwise an append of `t` under the id `freshId`. */
  function Saved(ts: seq<Task>, t: Task, freshId: string): seq<Task>
  {
    if Truthy(t.id) then Edited(ts, t) else ts + [t.(id := Some(freshId))]
  }

  /** Saving keeps the collection well formed, adds one task exactly when it
      creates one, and a created task comes last with the fresh id. */
  lemma SavedSpec(ts: seq<Task>, t: Task, freshId: string)
    requires !Truthy(t.id) ==> IsFreshId(ts, freshId)
    ensures WellFormed(ts) ==> WellFormed(Saved(ts, t, freshId))
    ensures |Saved(ts, t, freshId)| == |ts| + (if Truthy(t.id) then 0 else 1)
    ensures Saved(ts, t, freshId)[..|ts|] == if Truthy(t.id) then Edited(ts, t) else ts
    ensures !Truthy(t.id) ==> Saved(ts, t, freshId)[|ts|] == t.(id := Some(freshId))
  {
  }

  // ---------------------------------------------------------------- assignees

  function Assignees(ts: seq<Task>): seq<string>
  {
    seq(|ts|, i requires 0 <= i < |ts| => ts[i].assignee)
  }

  /** `"All"` followed by the distinct assignees in order of first appearance. */
  function AvailableAssignees(ts: seq<Task>): seq<string>
  {
    [Wildcard] + Distinct(Assignees(ts))
  }

  /** The choices start with `"All"`; the rest are distinct, are exactly the
      assignees of the tasks, and are the subsequence of the tasks' assignees
      at their first occurrences. */
  lemma {:induction false} AvailableAssigneesSpec(ts: seq<Task>)
    ensures |AvailableAssignees(ts)| >= 1 && AvailableAssignees(ts)[0] == Wildcard
    ensures NoDuplicates(AvailableAssignees(ts)[1..])
    ensures forall a :: a in AvailableAssignees(ts)[1..] <==> exists i :: 0 <= i < |ts| && ts[i].assignee == a
    ensures IndexedSubsequence(AvailableAssignees(ts)[1..], Assignees(ts), FirstOccurrences(Assignees(ts)))
    ensures forall j: nat :: j < |ts| ==>
              (j in FirstOccurrences(Assignees(ts)) <==> ts[j].assignee !in Assignees(ts)[..j])
  {
    var names := Assignees(ts);
    assert AvailableAssignees(ts)[1..] == Distinct(names);
    DistinctIsFirstOccurrences(names);
    forall a | a in Distinct(names) ensures exists i :: 0 <= i < |ts| && ts[i].assignee == a {
      var i :| 0 <= i < |names| && names[i] == a;
      assert ts[i].assignee == a;
    }
    forall a | (exists i :: 0 <= i < |ts| && ts[i].assignee == a) ensures a in Distinct(names) {
      var i :| 0 <= i < |ts| && ts[i].assignee == a;
      assert names[i] == a;
    }
  }

  /** Collections whose assignees are already distinct list them as they are. */
  lemma {:induction false} AvailableAssigneesOfDistinct(ts: seq<Task>)
    requires NoDuplicates(Assignees(ts))
    ensures AvailableAssignees(ts) == [Wildcard] + Assignees(ts)
  {
    DistinctOfNoDuplicates(Assignees(ts));
  }

  /** Adding a task lists its assignee at the end of the choices when no
      task had that assignee before, and leaves the choices as they were
      otherwise. */
  lemma {:induction false} AvailableAssigneesAfterAppend(ts: seq<Task>, t: Task)
    ensures AvailableAssignees(ts + [t])
         == AvailableAssignees(ts) + (if t.assignee in Assignees(ts) then [] else [t.assignee])
  {
    var names := Assignees(ts + [t]);
    assert names[..|names| - 1] == Assignees(ts);
    assert names[|names| - 1] == t.assignee;
    assert t.assignee in Distinct(Assignees(ts)) <==> t.assignee in Assignees(ts);
  }

  // ----------------------------------------------------------------- start-up

  /** The tasks the app starts with: the parsed stored text when it is present,
      non-empty and longer than two characters, otherwise the seed tasks. */
  function InitialTasks(stored: Option<string>, parse: string -> seq<Task>, seed: seq<Task>): seq<Task>
  {
    if Truthy(stored) && |stored.value| > 2 then parse(stored.value) else seed
  }

  /** Reloading after the collection was written as `"[]"` (an empty array)
      starts over from the seed; any other saved collection whose text parses
      back to it is restored. */
  lemma ReloadAfterSave(ts: seq<Task>, text: string, parse: string -> seq<Task>, seed: seq<Task>)
    requires ts == [] ==> text == "[]"
    requires ts != [] ==> |text| > 2 && parse(text) == ts
    ensures InitialTasks(Some(text), parse, seed) == if ts == [] then seed else ts
  {
  }
}

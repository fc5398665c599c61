/** The on-device task store: the active tasks (`@logs_task`), the completed
    tasks (`@logs_done`), the stored category names (`@logs_category`) and the
    Category component's list of deletable names. Each handler of the app reads
    a whole collection, changes it and writes it back; here each handler is a
    method of `TaskStore`, and each method is fixed by a transition function on
    a `State` value, about which the properties are proved. */
module Store {
  import opened Seqs
  import opened Sorting
  import opened Tasks
  import opened Categories
  import Text

  /** Everything the store holds. */
  datatype State = State(active: seq<Task>, done: seq<Task>, categories: CategoryState)

  /** `getData`/`getDone`: an absent key reads as the empty list. */
  function ReadTasks(raw: Option<seq<Task>>): (r: seq<Task>)
    ensures raw.None? ==> r == []
    ensures raw.Some? ==> r == raw.value
  {
    if raw.Some? then raw.value else []
  }

  /** The store as the components find it when they mount. */
  function Opened(rawActive: Option<seq<Task>>, rawDone: Option<seq<Task>>, rawCategories: CategoryRecord): State
  {
    State(ReadTasks(rawActive), ReadTasks(rawDone), OpenCategories(rawCategories))
  }

  /** `createNewTask`: the stored tasks, then the new one. */
  function WithTask(s: State, t: Task): State
  {
    s.(active := s.active + [t])
  }

  /** `handleDone` and `createDone`: every copy of the task leaves the active
      list, and one copy is appended to the done list whether or not it was active. */
  function Completed(s: State, t: Task): State
  {
    s.(active := RemoveAll(s.active, t), done := s.done + [t])
  }

  /** `handleDelete`: every copy of the task leaves the active list. */
  function WithoutTask(s: State, t: Task): State
  {
    s.(active := RemoveAll(s.active, t))
  }

  /** `deleteItem`: every copy of the task leaves the done list. */
  function WithoutDone(s: State, t: Task): State
  {
    s.(done := RemoveAll(s.done, t))
  }

  /** The first write of `handleConfirmRecover`: the task, then the active tasks. */
  function RecoverWritten(s: State, t: Task): State
  {
    s.(active := [t] + s.active)
  }

  /** `handleConfirmRecover` as a whole: the first write, then `deleteItem`. */
  function Restored(s: State, t: Task): State
  {
    WithoutDone(RecoverWritten(s, t), t)
  }

  /** `handleClearCompletedTasks`. */
  function DoneCleared(s: State): State
  {
    s.(done := [])
  }

  /** `clearAsyncStorage` in Home.js once confirmed. */
  function ActiveCleared(s: State): State
  {
    s.(active := [])
  }

  /** `sortByPriority`: the active tasks in the order of `Array.prototype.sort`
      under `(a, b) => a.priority - b.priority`. */
  function PrioritySorted(s: State): State
  {
    s.(active := SortBy(s.active, PriorityKey))
  }

  predicate AllDated(tasks: seq<Task>)
  {
    forall i :: 0 <= i < |tasks| ==> HasDate(tasks[i])
  }

  /** `sortByDeadline` when every deadline is a date: oldest first. */
  function DeadlineSorted(s: State): State
    requires AllDated(s.active)
  {
    s.(active := SortBy(s.active, DeadlineKey))
  }

  // ---- what the transitions promise ----

  /** No task is both active and done. */
  predicate Partitioned(s: State)
  {
    forall t :: t in s.active ==> t !in s.done
  }

  /** Absent keys read as empty lists, present ones as what they hold, and the
      deletable category names never include the placeholder. */
  lemma OpenedSpec(rawActive: Option<seq<Task>>, rawDone: Option<seq<Task>>, rawCategories: CategoryRecord)
    ensures var s := Opened(rawActive, rawDone, rawCategories);
      && (rawActive.None? ==> s.active == [])
      && (rawDone.None? ==> s.done == [])
      && s.categories.stored == LoadCategories(rawCategories)
      && NoCategory !in s.categories.view
      && Partitioned(Opened(None, rawDone, rawCategories))
  {
    OpenedViewHasNoPlaceholder(rawCategories);
  }

  /** A created task goes at the end: one more task, the earlier ones unchanged
      and in place, nothing else touched. */
  lemma WithTaskSpec(s: State, t: Task)
    ensures var s' := WithTask(s, t);
      && |s'.active| == |s.active| + 1
      && s'.active[..|s.active|] == s.active
      && s'.active[|s.active|] == t
      && s'.done == s.done && s'.categories == s.categories
  {
    assert WithTask(s, t).active[..|s.active|] == s.active;
  }

  /** With the active key absent, the first task created is the only one. */
  lemma FirstTaskAlone(rawDone: Option<seq<Task>>, rawCategories: CategoryRecord, t: Task)
    ensures WithTask(Opened(None, rawDone, rawCategories), t).active == [t]
  {
  }

  /** Marking done: the task leaves the active list entirely, the other active
      tasks keep their number and order, and exactly one copy is appended to the
      done list, whose earlier entries stay as they were. */
  lemma CompletedSpec(s: State, t: Task)
    ensures var s' := Completed(s, t);
      && t !in s'.active
      && t in s'.done
      && Subsequence(s'.active, s.active)
      && (forall x :: x != t ==> multiset(s'.active)[x] == multiset(s.active)[x])
      && (t !in s.active ==> s'.active == s.active)
      && |s'.done| == |s.done| + 1
      && s'.done[..|s.done|] == s.done && s'.done[|s.done|] == t
      && multiset(s'.done)[t] == multiset(s.done)[t] + 1
      && s'.categories == s.categories
  {
    RemoveAllSpec(s.active, t);
    assert Completed(s, t).done[..|s.done|] == s.done;
  }

  /** Deleting an active task: every copy goes, the rest keep their number and
      order, a task that is not active changes nothing, the done list is untouched. */
  lemma WithoutTaskSpec(s: State, t: Task)
    ensures var s' := WithoutTask(s, t);
      && t !in s'.active
      && Subsequence(s'.active, s.active)
      && (forall x :: x != t ==> multiset(s'.active)[x] == multiset(s.active)[x])
      && (t in s.active ==> |s'.active| < |s.active|)
      && (t !in s.active ==> s' == s)
      && s'.done == s.done && s'.categories == s.categories
  {
    RemoveAllSpec(s.active, t);
    if t in s.active {
      RemoveAllShrinks(s.active, t);
    }
  }

  /** Deleting a done task: the same for the done list, the active list untouched. */
  lemma WithoutDoneSpec(s: State, t: Task)
    ensures var s' := WithoutDone(s, t);
      && t !in s'.done
      && Subsequence(s'.done, s.done)
      && (forall x :: x != t ==> multiset(s'.done)[x] == multiset(s.done)[x])
      && (t !in s.done ==> s' == s)
      && s'.active == s.active && s'.categories == s.categories
  {
    RemoveAllSpec(s.done, t);
  }

  /** Restoring: the task comes first and the old active tasks follow in order;
      after the first write it is in both lists when it was done, and once the
      second write is through it is in no done entry at all. */
  lemma RestoredSpec(s: State, t: Task)
    ensures var m := RecoverWritten(s, t);
      && m.active[0] == t && m.active[1..] == s.active
      && m.done == s.done
      && (t in s.done ==> t in m.active && t in m.done)
    ensures var s' := Restored(s, t);
      && s'.active == [t] + s.active
      && t !in s'.done
      && Subsequence(s'.done, s.done)
      && (forall x :: x != t ==> multiset(s'.done)[x] == multiset(s.done)[x])
      && s'.categories == s.categories
  {
    RemoveAllSpec(s.done, t);
  }

  /** Restoring a task that was just marked done brings it back at the top of
      the active list and leaves the done list as it was before. */
  lemma RestoreAfterComplete(s: State, t: Task)
    requires t !in s.done
    ensures Restored(Completed(s, t), t) == s.(active := [t] + RemoveAll(s.active, t))
  {
    RemoveAllAppended(s.done, t);
  }

  /** So for a task that came first in the active list, once and only there,
      marking it done and restoring it gives back the very same store. */
  lemma RestoreUndoesComplete(s: State, t: Task)
    requires |s.active| > 0 && s.active[0] == t && t !in s.active[1..]
    requires t !in s.done
    ensures Restored(Completed(s, t), t) == s
  {
    RestoreAfterComplete(s, t);
    var rest := s.active[1..];
    assert s.active == [t] + rest;
    RemoveAllSpec(rest, t);
    assert RemoveAll(s.active, t) == RemoveAll(rest, t) by {
      FilterConcat([t], rest, y => y != t);
    }
  }

  /** Clearing either list empties it and leaves everything else alone. */
  lemma ClearedSpec(s: State)
    ensures DoneCleared(s).done == [] && DoneCleared(s).active == s.active
    ensures DoneCleared(s).categories == s.categories
    ensures ActiveCleared(s).active == [] && ActiveCleared(s).done == s.done
    ensures ActiveCleared(s).categories == s.categories
  {
  }

  /** Sorting by priority: a permutation of the active tasks, in non-decreasing
      priority, with equal priorities in their earlier order; sorting again
      changes nothing, and an absent key sorts to []. */
  lemma PrioritySortedSpec(s: State)
    ensures var s' := PrioritySorted(s);
      && multiset(s'.active) == multiset(s.active)
      && |s'.active| == |s.active|
      && SortedBy(s'.active, PriorityKey)
      && (forall p :: WithKey(s'.active, PriorityKey, p) == WithKey(s.active, PriorityKey, p))
      && PrioritySorted(s') == s'
      && s'.done == s.done && s'.categories == s.categories
    ensures s.active == [] ==> PrioritySorted(s) == s
  {
    SortByPermutes(s.active, PriorityKey);
    SortBySorts(s.active, PriorityKey);
    forall p {
      SortByStable(s.active, PriorityKey, p);
    }
    SortByIdempotent(s.active, PriorityKey);
  }

  /** Sorting by deadline, every deadline a date: a permutation, oldest first,
      ties in their earlier order, and sorting again changes nothing. */
  lemma DeadlineSortedSpec(s: State)
    requires AllDated(s.active)
    ensures var s' := DeadlineSorted(s);
      && multiset(s'.active) == multiset(s.active)
      && |s'.active| == |s.active|
      && SortedBy(s'.active, DeadlineKey)
      && (forall d :: WithKey(s'.active, DeadlineKey, d) == WithKey(s.active, DeadlineKey, d))
      && AllDated(s'.active)
      && DeadlineSorted(s') == s'
      && s'.done == s.done && s'.categories == s.categories
  {
    var r := SortBy(s.active, DeadlineKey);
    SortByPermutes(s.active, DeadlineKey);
    SortBySorts(s.active, DeadlineKey);
    forall d {
      SortByStable(s.active, DeadlineKey, d);
    }
    SortByIdempotent(s.active, DeadlineKey);
    forall i | 0 <= i < |r| ensures HasDate(r[i]) {
      assert r[i] in multiset(s.active);
    }
  }

  /** Every list operation keeps the active and done lists apart, except that a
      new task can collide with a done one (ids are drawn from only a thousand
      values, so this can happen) and the first write of a restore puts a done
      task back in the active list until the second write removes it. */
  lemma PartitionKept(s: State, t: Task)
    requires Partitioned(s)
    ensures Partitioned(WithTask(s, t)) <==> t !in s.done
    ensures Partitioned(Completed(s, t))
    ensures Partitioned(WithoutTask(s, t))
    ensures Partitioned(WithoutDone(s, t))
    ensures Partitioned(RecoverWritten(s, t)) <==> t !in s.done
    ensures Partitioned(Restored(s, t))
    ensures Partitioned(DoneCleared(s)) && Partitioned(ActiveCleared(s))
    ensures Partitioned(PrioritySorted(s))
    ensures AllDated(s.active) ==> Partitioned(DeadlineSorted(s))
  {
    RemoveAllSpec(s.active, t);
    RemoveAllSpec(s.done, t);
    SubsequenceMembers(RemoveAll(s.active, t), s.active);
    SubsequenceMembers(RemoveAll(s.done, t), s.done);
    assert t in WithTask(s, t).active;
    assert t in RecoverWritten(s, t).active;
    SortByPermutes(s.active, PriorityKey);
    forall x | x in PrioritySorted(s).active ensures x in s.active {
      assert x in multiset(PrioritySorted(s).active);
    }
    if AllDated(s.active) {
      SortByPermutes(s.active, DeadlineKey);
      forall x | x in DeadlineSorted(s).active ensures x in s.active {
        assert x in multiset(DeadlineSorted(s).active);
      }
    }
  }

  // ---- the store object ----

  class TaskStore {
    /** `@logs_task`, with an absent key read as []. */
    var active: seq<Task>
    /** `@logs_done`, with an absent key read as []. */
    var done: seq<Task>
    /** The string entries of `@logs_category`, as `getCategory` reads them. */
    var categoryNames: seq<string>
    /** The Category component's `listOfCategory`. */
    var categoryView: seq<string>

    function Snapshot(): State
      reads this
    {
      State(active, done, CategoryState(categoryNames, categoryView))
    }

    /** The components mounting over whatever the three keys hold. */
    constructor Open(rawActive: Option<seq<Task>>, rawDone: Option<seq<Task>>, rawCategories: CategoryRecord)
      ensures Snapshot() == Opened(rawActive, rawDone, rawCategories)
    {
      active := ReadTasks(rawActive);
      done := ReadTasks(rawDone);
      var names := LoadCategories(rawCategories);
      categoryNames := names;
      categoryView := RemoveAll(names, NoCategory);
    }

    /** `createNewTask`: copies the stored tasks one by one, appends the record
        built from the form and the three drawn digits, and stores the list. */
    method CreateTask(form: Form, a: Digit, b: Digit, c: Digit) returns (t: Task)
      modifies this
      ensures t == NewTask(form, a, b, c)
      ensures Snapshot() == WithTask(old(Snapshot()), t)
    {
      var data := active;
      var tasks: seq<Task> := [];
      var i := 0;
      while i < |data|
        invariant 0 <= i <= |data|
        invariant tasks == data[..i]
      {
        tasks := tasks + [data[i]];
        i := i + 1;
      }
      t := NewTask(form, a, b, c);
      tasks := tasks + [t];
      active := tasks;
    }

    /** `handleDone`: filters the task out of the active list, then `createDone`
        copies the done list one by one and appends the task. */
    method MarkDone(t: Task)
      modifies this
      ensures Snapshot() == Completed(old(Snapshot()), t)
    {
      active := RemoveAll(active, t);
      var data := done;
      var finished: seq<Task> := [];
      var i := 0;
      while i < |data|
        invariant 0 <= i <= |data|
        invariant finished == data[..i]
      {
        finished := finished + [data[i]];
        i := i + 1;
      }
      finished := finished + [t];
      done := finished;
    }

    /** `handleDelete`. */
    method DeleteTask(t: Task)
      modifies this
      ensures Snapshot() == WithoutTask(old(Snapshot()), t)
    {
      active := RemoveAll(active, t);
    }

    /** `deleteItem` of DoneTasks.js. */
    method DeleteDone(t: Task)
      modifies this
      ensures Snapshot() == WithoutDone(old(Snapshot()), t)
    {
      done := RemoveAll(done, t);
    }

    /** The first write of `handleConfirmRecover`: the task first, then the
        stored tasks copied one by one. */
    method WriteRecovered(t: Task)
      modifies this
      ensures Snapshot() == RecoverWritten(old(Snapshot()), t)
    {
      var data := active;
      var tasks: seq<Task> := [t];
      var i := 0;
      while i < |data|
        invariant 0 <= i <= |data|
        invariant tasks == [t] + data[..i]
      {
        tasks := tasks + [data[i]];
        i := i + 1;
      }
      active := tasks;
    }

    /** `handleConfirmRecover`: the two writes in their order. */
    method Restore(t: Task)
      modifies this
      ensures Snapshot() == Restored(old(Snapshot()), t)
    {
      WriteRecovered(t);
      DeleteDone(t);
    }

    /** `handleClearCompletedTasks`. */
    method ClearDone()
      modifies this
      ensures Snapshot() == DoneCleared(old(Snapshot()))
    {
      done := [];
    }

    /** `clearAsyncStorage`: refused with an alert when the list is empty,
        otherwise the active list is emptied. */
    method ClearActive() returns (cleared: bool)
      modifies this
      ensures cleared <==> old(active) != []
      ensures Snapshot() == ActiveCleared(old(Snapshot()))
    {
      if active == [] {
        cleared := false;
        return;
      }
      active := [];
      cleared := true;
    }

    /** Copies the active list into an array, sorts it in place by `key` and stores it. */
    method SortActive(key: Task -> int)
      modifies this
      ensures active == SortBy(old(active), key)
      ensures done == old(done) && categoryNames == old(categoryNames) && categoryView == old(categoryView)
    {
      var data := active;
      var a := new Task[|data|](i requires 0 <= i < |data| => data[i]);
      assert a[..] == data;
      SortInPlace(a, key);
      active := a[..];
    }

    /** `sortByPriority`. */
    method SortByPriority()
      modifies this
      ensures Snapshot() == PrioritySorted(old(Snapshot()))
    {
      SortActive(PriorityKey);
    }

    /** `sortByDeadline`, for a list whose every deadline is a date. */
    method SortByDeadline()
      requires AllDated(active)
      modifies this
      ensures Snapshot() == DeadlineSorted(old(Snapshot()))
    {
      SortActive(DeadlineKey);
    }

    /** `createCategoryItem`. */
    method CreateCategory(input: string) returns (outcome: CategoryOutcome)
      modifies this
      ensures (outcome, Snapshot().categories) == AddCategory(old(Snapshot().categories), input)
      ensures active == old(active) && done == old(done)
    {
      var trimmed := Text.Trim(input);
      if |trimmed| == 0 {
        outcome := EmptyName;
        return;
      }
      var names := categoryNames;
      if trimmed in names {
        outcome := DuplicateName;
        return;
      }
      names := names + [trimmed];
      categoryNames := names;
      categoryView := names;
      outcome := Created;
    }

    /** `deleteCategoryItem`: checked against the component's list, not storage. */
    method DeleteCategory(name: string) returns (outcome: CategoryOutcome)
      modifies this
      ensures (outcome, Snapshot().categories) == RemoveCategory(old(Snapshot().categories), name)
      ensures active == old(active) && done == old(done)
    {
      if name == NoCategory {
        outcome := ReservedName;
        return;
      }
      if name == "" || name !in categoryView {
        outcome := NotFound;
        return;
      }
      var names := RemoveAll(categoryView, name);
      categoryNames := names;
      categoryView := names;
      outcome := Deleted;
    }
  }
}

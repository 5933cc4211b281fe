/**
 * Task records and the plain-object operations on them: `createTask`,
 * `assignPomodoro` and `editTask`.
 *
 * The record type declares the counter as `pomodoroCount` while the
 * operations build and patch a field named `pomodoro`; this model uses the
 * single field `pomodoro` for both.
 */
module Tasks {
  import opened Wrappers

  datatype Task = Task(id: string, text: string, description: string, done: bool, pomodoro: int)

  /** Arguments of `createTask`: the text is required, the other two may be absent. */
  datatype CreateTaskParams = CreateTaskParams(text: string, description: Option<string>, pomodoro: Option<int>)

  /**
   * The argument of `editTask`: every field of a task except its identifier,
   * each one present (`Some`) or absent (`None`).
   */
  datatype TaskPatch = TaskPatch(text: Option<string>, description: Option<string>, done: Option<bool>, pomodoro: Option<int>)

  const EmptyPatch := TaskPatch(None, None, None, None)

  /** A fresh task under the identifier `id` supplied by the caller. */
  function CreateTask(id: string, params: CreateTaskParams): (t: Task)
    ensures t.id == id && t.text == params.text
    ensures !t.done
    ensures params.description.None? ==> t.description == ""
    ensures params.description.Some? ==> t.description == params.description.value
    ensures t.pomodoro == 0
  {
    Task(id, params.text, params.description.GetOr(""), false, 0)
  }

  /** The `pomodoro` argument of `createTask` has no effect on the task built. */
  lemma CreateTaskIgnoresPomodoro(id: string, text: string, description: Option<string>, p: Option<int>, q: Option<int>)
    ensures CreateTask(id, CreateTaskParams(text, description, p)) == CreateTask(id, CreateTaskParams(text, description, q))
  {
  }

  /** `{ ...task, pomodoro }` */
  function AssignPomodoro(task: Task, pomodoro: int): (t: Task)
    ensures t.pomodoro == pomodoro
    ensures t.id == task.id && t.text == task.text && t.description == task.description && t.done == task.done
  {
    task.(pomodoro := pomodoro)
  }

  /** `{ ...task, ...changedFields }`: a present field overwrites, an absent one keeps the task's value. */
  function EditTask(task: Task, patch: TaskPatch): (t: Task)
    ensures t.id == task.id
    ensures t.text == (if patch.text.Some? then patch.text.value else task.text)
    ensures t.description == (if patch.description.Some? then patch.description.value else task.description)
    ensures t.done == (if patch.done.Some? then patch.done.value else task.done)
    ensures t.pomodoro == (if patch.pomodoro.Some? then patch.pomodoro.value else task.pomodoro)
  {
    Task(task.id, patch.text.GetOr(task.text), patch.description.GetOr(task.description),
         patch.done.GetOr(task.done), patch.pomodoro.GetOr(task.pomodoro))
  }

  /** The field of `later` when present, else that of `earlier`. */
  function Prefer<T>(earlier: Option<T>, later: Option<T>): Option<T>
  {
    if later.Some? then later else earlier
  }

  /** One patch doing the work of `p` followed by `q`: `q`'s fields win. */
  function MergePatches(p: TaskPatch, q: TaskPatch): (m: TaskPatch)
    ensures forall t: Task :: EditTask(t, m) == EditTask(EditTask(t, p), q)
  {
    TaskPatch(Prefer(p.text, q.text), Prefer(p.description, q.description),
              Prefer(p.done, q.done), Prefer(p.pomodoro, q.pomodoro))
  }

  /** Editing with no field present returns the task unchanged. */
  lemma EditTaskEmpty(task: Task)
    ensures EditTask(task, EmptyPatch) == task
  {
  }

  /**
   * Applying patches left to right, as successive `editTask` calls do; no sequence
   * of edits reaches the identifier.
   */
  function EditAll(task: Task, patches: seq<TaskPatch>): (t: Task)
    ensures t.id == task.id
    decreases |patches|
  {
    if patches == [] then task else EditAll(EditTask(task, patches[0]), patches[1..])
  }

  /** Applying a patch a second time changes nothing more. */
  lemma EditTaskIdempotent(task: Task, patch: TaskPatch)
    ensures EditTask(EditTask(task, patch), patch) == EditTask(task, patch)
  {
  }

  /**
   * Two edits in a row equal one edit with the merged patch: the contract of
   * `MergePatches` for one task, stated as a lemma for `EditAllIsOneEdit`.
   */
  lemma EditTaskCompose(task: Task, p: TaskPatch, q: TaskPatch)
    ensures EditTask(EditTask(task, p), q) == EditTask(task, MergePatches(p, q))
  {
  }

  /** Any sequence of edits equals one edit with all the patches merged in order. */
  lemma {:induction false} EditAllIsOneEdit(task: Task, patches: seq<TaskPatch>)
    ensures EditAll(task, patches) == EditTask(task, MergeAll(patches))
    decreases |patches|
  {
    if patches == [] {
      EditTaskEmpty(task);
    } else {
      var rest := patches[1..];
      EditAllIsOneEdit(EditTask(task, patches[0]), rest);
      EditTaskCompose(task, patches[0], MergeAll(rest));
      MergeAllCons(patches[0], rest);
      assert patches == [patches[0]] + rest;
    }
  }

  /** The patches merged left to right, later fields winning. */
  function MergeAll(patches: seq<TaskPatch>): (m: TaskPatch)
    decreases |patches|
  {
    if patches == [] then EmptyPatch else MergePatches(MergeAll(patches[..|patches| - 1]), patches[|patches| - 1])
  }

  /** Merging is associative, so the left fold can be read from the front. */
  lemma {:induction false} MergeAllCons(p: TaskPatch, rest: seq<TaskPatch>)
    ensures MergeAll([p] + rest) == MergePatches(p, MergeAll(rest))
    decreases |rest|
  {
    if rest == [] {
      assert [p] + rest == [p];
      assert MergeAll([p]) == MergePatches(EmptyPatch, p);
    } else {
      var init := rest[..|rest| - 1];
      var last := rest[|rest| - 1];
      assert ([p] + rest)[..|[p] + rest| - 1] == [p] + init;
      MergeAllCons(p, init);
    }
  }

  /** `assignPomodoro` is the edit whose only present field is the counter. */
  lemma AssignPomodoroIsEdit(task: Task, pomodoro: int)
    ensures AssignPomodoro(task, pomodoro) == EditTask(task, EmptyPatch.(pomodoro := Some(pomodoro)))
  {
  }
}

/** The page's task state as it lives in memory: the global `tasks` object,
    whose two lists and counter the click handlers update in place. Each
    handler is proved to perform the matching transition of module `Tasks`
    and to keep its invariant. */
module TaskStore {
  import opened Wrappers
  import opened TaskIds
  import opened Tasks

  /** `ts.findIndex((task) => task.id === taskId)`, scanning from the front. */
  method FindTaskIndex(ts: seq<Task>, taskId: string) returns (index: int)
    ensures index == IndexOf(ts, taskId)
  {
    index := 0;
    while index < |ts| && ts[index].id != taskId
      invariant 0 <= index <= |ts|
      invariant forall k :: 0 <= k < index ==> ts[k].id != taskId
    {
      index := index + 1;
    }
    if index == |ts| {
      index := -1;
    }
  }

  /** The global `tasks` object. */
  class TaskStore {
    var incomplete: seq<Task>
    var completed: seq<Task>
    var nextId: nat

    /** What the store holds, as a value. */
    function Value(): Collection
      reads this
    {
      Collection(incomplete, completed, nextId)
    }

    ghost predicate Valid()
      reads this
    {
      Tasks.Valid(Value())
    }

    /** The initial `tasks` object: both lists empty, the counter at 1. */
    constructor ()
      ensures Valid() && Value() == Initial()
    {
      incomplete := [];
      completed := [];
      nextId := 1;
    }

    /** `createTask`, with the input field's value and the current time passed
        in. Returns the verdict handed to `updateValidationState`. */
    method CreateTask(input: string, now: Timestamp) returns (isValid: bool)
      requires Valid()
      modifies this
      ensures Valid()
      ensures isValid == ValidateTask(input)
      ensures Value() == Create(old(Value()), input, now)
      ensures completed == old(completed)
      ensures !isValid ==> incomplete == old(incomplete) && nextId == old(nextId)
      ensures isValid ==>
        (&& incomplete == old(incomplete) + [Task(IdString(old(nextId)), input, false, now, None)]
         && nextId == old(nextId) + 1)
    {
      Tasks.CreatePreservesValid(Value(), input, now);
      isValid := ValidateTask(input);
      if isValid {
        var newTask := Task(IdString(nextId), input, false, now, None);
        nextId := nextId + 1;
        incomplete := incomplete + [newTask];
      }
    }

    /** `handleTaskCompletion` for the checkbox of task `taskId`: the first
        incomplete task with that id is flagged, stamped with `now`, spliced
        out of `incomplete` and pushed onto `completed`. */
    method HandleTaskCompletion(taskId: string, now: Timestamp)
      requires Valid()
      modifies this
      ensures Valid()
      ensures Value() == Complete(old(Value()), taskId, now)
      ensures nextId == old(nextId)
      ensures var i := IndexOf(old(incomplete), taskId);
        if i == -1 then incomplete == old(incomplete) && completed == old(completed)
        else
          (&& incomplete == old(incomplete)[..i] + old(incomplete)[i + 1..]
           && completed == old(completed)
                + [old(incomplete)[i].(completed := true, completedOn := Some(now))])
    {
      Tasks.CompletePreservesValid(Value(), taskId, now);
      var taskIndex := FindTaskIndex(incomplete, taskId);
      if taskIndex != -1 {
        var completedTask := incomplete[taskIndex];
        completedTask := completedTask.(completed := true, completedOn := Some(now));
        incomplete := incomplete[..taskIndex] + incomplete[taskIndex + 1..];
        completed := completed + [completedTask];
      }
    }

    /** `handleTaskDeletion` for the delete button of task `taskId`: the first
        incomplete task with that id is spliced out of `incomplete`. */
    method HandleTaskDeletion(taskId: string)
      requires Valid()
      modifies this
      ensures Valid()
      ensures Value() == Delete(old(Value()), taskId)
      ensures completed == old(completed) && nextId == old(nextId)
      ensures var i := IndexOf(old(incomplete), taskId);
        if i == -1 then incomplete == old(incomplete)
        else incomplete == old(incomplete)[..i] + old(incomplete)[i + 1..]
    {
      Tasks.DeletePreservesValid(Value(), taskId);
      var taskIndex := FindTaskIndex(incomplete, taskId);
      if taskIndex != -1 {
        incomplete := incomplete[..taskIndex] + incomplete[taskIndex + 1..];
      }
    }
  }
}

/** The registry of long-running tasks: each task wraps a promise, is
    listed with its status, and may be cancelled once through the cancel
    function it was created with. Promises, id generation and the call of
    the cancel function are outside the model: the new id, the settlement
    and the value a promise carries are parameters, and cancelling returns
    the function that would be called. */
module Tasks {
  import opened Wrappers
  import opened JsonValue

  datatype Status = Pending | Success(result: Json) | Failure(error: Json)

  /** A task. `cancel` is the stored canceller: a function (an `Other`
      value), or `Undefined` once used or when none was given. */
  datatype Task = Task(id: string, taskLabel: Json, status: Status, taskType: string, cancel: Json, data: Json)

  datatype Registry = Registry(tasks: map<string, Task>)

  datatype TaskError = NoSuchObject(id: string) | ForbiddenOperation(operation: string)
    // destructuring `undefined` or `null`
    | TypeError

  datatype Settlement = Fulfilled(result: Json) | Rejected(error: Json)

  const DefaultLabel := "unnamed task"

  /** `createTask(promise, { cancel, data, label })` with the fresh id
      `id`: an option left out is `Undefined`, and, as with any default
      parameter, an option given as `undefined` takes its default too: the
      promise's own `cancel` property, or the label `unnamed task`. */
  function CreateTask(registry: Registry, id: string, promiseCancel: Json, cancel: Json, data: Json, taskLabel: Json): (r: Registry)
    ensures id in r.tasks
    ensures r.tasks[id].id == id && r.tasks[id].status == Pending && r.tasks[id].taskType == "task"
    ensures taskLabel.Undefined? ==> r.tasks[id].taskLabel == Str(DefaultLabel)
    ensures !taskLabel.Undefined? ==> r.tasks[id].taskLabel == taskLabel
    ensures cancel.Undefined? ==> r.tasks[id].cancel == promiseCancel
    ensures !cancel.Undefined? ==> r.tasks[id].cancel == cancel
    ensures r.tasks[id].data == data
    ensures forall other :: other != id ==> (other in r.tasks <==> other in registry.tasks)
    ensures forall other :: other != id && other in registry.tasks ==> r.tasks[other] == registry.tasks[other]
  {
    var task := Task(id, if taskLabel.Undefined? then Str(DefaultLabel) else taskLabel, Pending, "task",
                     if cancel.Undefined? then promiseCancel else cancel, data);
    Registry(registry.tasks[id := task])
  }

  /** The promise of task `id` settles: its status records the outcome. */
  function Settle(registry: Registry, id: string, outcome: Settlement): (r: Registry)
    ensures r.tasks.Keys == registry.tasks.Keys
    ensures id in r.tasks ==>
              r.tasks[id].status == (match outcome
                                     case Fulfilled(v) => Success(v)
                                     case Rejected(e) => Failure(e))
    ensures id in r.tasks ==> r.tasks[id] == registry.tasks[id].(status := r.tasks[id].status)
    ensures forall other :: other != id && other in registry.tasks ==> r.tasks[other] == registry.tasks[other]
  {
    if id !in registry.tasks then registry
    else
      var task := registry.tasks[id];
      var status := match outcome
        case Fulfilled(v) => Success(v)
        case Rejected(e) => Failure(e);
      Registry(registry.tasks[id := task.(status := status)])
  }

  /** A task created and then settled carries its label and the outcome. */
  lemma CreateThenSettle(registry: Registry, id: string, promiseCancel: Json, data: Json, taskLabel: Json, outcome: Settlement)
    ensures var r := Settle(CreateTask(registry, id, promiseCancel, Undefined, data, taskLabel), id, outcome);
            id in r.tasks
            && r.tasks[id].taskLabel == (if taskLabel.Undefined? then Str(DefaultLabel) else taskLabel)
            && (outcome.Fulfilled? <==> r.tasks[id].status.Success?)
            && (outcome.Fulfilled? ==> r.tasks[id].status.result == outcome.result)
            && (outcome.Rejected? ==> r.tasks[id].status.error == outcome.error)
  {
  }

  /** `const { cancel } = v`: the `cancel` property of `v`. Functions and
      other primitives have none of their own; `undefined` and `null`
      cannot be destructured. */
  function CancelProperty(v: Json): (r: Result<Json, TaskError>)
    ensures r.Err? <==> IsNullish(v)
    ensures v.Other? ==> r == Ok(Undefined)
  {
    match v
    case Undefined => Err(TypeError)
    case Null => Err(TypeError)
    case Obj(fields) => Ok(Get(fields, "cancel"))
    case _ => Ok(Undefined)
  }

  /** `cancelTask(id)` as written: the canceller is looked up as
      `task.cancel.cancel`. */
  function CancelTaskAsWritten(registry: Registry, id: string): (r: Result<(Registry, Json), TaskError>)
    ensures id !in registry.tasks ==> r == Err(NoSuchObject(id))
    ensures id in registry.tasks && IsNullish(registry.tasks[id].cancel) ==> r == Err(TypeError)
    ensures r.Ok? ==> id in registry.tasks && r.value.0.tasks == registry.tasks[id := registry.tasks[id].(cancel := Undefined)]
  {
    if id !in registry.tasks then Err(NoSuchObject(id))
    else
      var task := registry.tasks[id];
      var cancel :- CancelProperty(task.cancel);
      if cancel == Undefined then Err(ForbiddenOperation("cancel"))
      else Ok((Registry(registry.tasks[id := task.(cancel := Undefined)]), cancel))
  }

  /** As written, a task created with a cancel function can never be
      cancelled: the function has no `cancel` property of its own. */
  lemma CancelAsWrittenRefused(registry: Registry, id: string, fn: nat, data: Json, taskLabel: Json)
    ensures CancelTaskAsWritten(CreateTask(registry, id, Undefined, Other(fn), data, taskLabel), id)
            == Err(ForbiddenOperation("cancel"))
  {
  }

  /** As written, a task without a canceller makes `cancelTask` throw a
      TypeError rather than the forbidden-operation error. */
  lemma CancelAsWrittenTypeError(registry: Registry, id: string, data: Json, taskLabel: Json)
    ensures CancelTaskAsWritten(CreateTask(registry, id, Undefined, Undefined, data, taskLabel), id) == Err(TypeError)
  {
  }

  /** `cancelTask(id)` as intended: the stored canceller, once, and
      `forbiddenOperation('cancel')` when there is none. */
  function CancelTask(registry: Registry, id: string): (r: Result<(Registry, Json), TaskError>)
    ensures id !in registry.tasks ==> r == Err(NoSuchObject(id))
    ensures id in registry.tasks && registry.tasks[id].cancel == Undefined ==> r == Err(ForbiddenOperation("cancel"))
    ensures id in registry.tasks && registry.tasks[id].cancel != Undefined ==>
              r == Ok((Registry(registry.tasks[id := registry.tasks[id].(cancel := Undefined)]), registry.tasks[id].cancel))
  {
    if id !in registry.tasks then Err(NoSuchObject(id))
    else
      var task := registry.tasks[id];
      if task.cancel == Undefined then Err(ForbiddenOperation("cancel"))
      else Ok((Registry(registry.tasks[id := task.(cancel := Undefined)]), task.cancel))
  }

  /** A task created with a cancel function is cancelled through it the
      first time, and refused the second time. */
  lemma CancelOnce(registry: Registry, id: string, fn: nat, data: Json, taskLabel: Json)
    ensures var created := CreateTask(registry, id, Undefined, Other(fn), data, taskLabel);
            var first := CancelTask(created, id);
            first.Ok? && first.value.1 == Other(fn)
            && first.value.0.tasks[id].status == Pending
            && CancelTask(first.value.0, id) == Err(ForbiddenOperation("cancel"))
  {
  }

  /** A canceller passed as `undefined` falls back to the promise's: the
      corrected `cancelTask` then cancels through the promise's function. */
  lemma UndefinedCancelFallsBack(registry: Registry, id: string, fn: nat, data: Json, taskLabel: Json)
    ensures var created := CreateTask(registry, id, Other(fn), Undefined, data, taskLabel);
            created == CreateTask(registry, id, Other(fn), Other(fn), data, taskLabel)
            && CancelTask(created, id).Ok? && CancelTask(created, id).value.1 == Other(fn)
  {
  }
}

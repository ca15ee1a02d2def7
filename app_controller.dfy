/**
 The task controller of the simple application: list everything, fetch by id,
 create, update four fields of an existing row, and delete, over the task
 table.

 The controller is an [ApiController]: when a task body fails validation the
 framework answers 400 with the model-state errors before AddTask or
 UpdateTask runs. The actions themselves check no model state.
 */
module AppTasks {
  import opened TaskItems
  import opened TaskStore
  import opened Http

  class TaskController {
    const table: TaskTable

    constructor (table: TaskTable)
      ensures this.table == table
    {
      this.table := table;
    }

    /** GET: every row in store order; an empty table is an empty 200, not a 404. */
    function GetTasks(): (r: Response<seq<TaskItem>>)
      reads table
      ensures r.Ok? && |r.value| == |table.rows|
      ensures r.Ok? && forall i :: 0 <= i < |r.value| ==> r.value[i] == table.rows[i]
    {
      Ok(table.rows)
    }

    /** GET by id: the row with that Id, or 404 when there is none. */
    function GetSpecificTask(id: int): (r: Response<TaskItem>)
      reads table
      ensures r.Ok? || r.NotFound?
      ensures r.Ok? <==> HasId(table.rows, id)
      ensures r.Ok? ==> r.value in table.rows && r.value.id == id
    {
      match Find(table.rows, id)
      case None => NotFound
      case Some(i) => Ok(table.rows[i])
    }

    /**
     POST: once past the framework's validation, the body is stored under a
     fresh Id and returned with 201.
     */
    method AddTask(task: TaskItem) returns (r: Response<TaskItem>)
      requires table.Valid()
      modifies table
      ensures table.Valid()
      ensures r.Created? || r.BadRequest?
      ensures r.BadRequest? <==> !IsValid(task)
      ensures r.BadRequest? ==>
                && r.problem == InvalidModel(Violations(task))
                && table.rows == old(table.rows) && table.nextId == old(table.nextId)
      ensures r.Created? ==>
                && r.value == task.(id := r.value.id)
                && r.value.id == old(table.nextId) && table.nextId == old(table.nextId) + 1
                && !HasId(old(table.rows), r.value.id)
                && table.rows == old(table.rows) + [r.value]
                && Find(table.rows, r.value.id) == Some(|old(table.rows)|)
                && GetSpecificTask(r.value.id) == Ok(r.value)
      ensures AllValid(old(table.rows)) ==> AllValid(table.rows)
    {
      if !IsValid(task) {
        r := BadRequest(InvalidModel(Violations(task)));
        return;
      }
      var stored := table.Insert(task);
      FindAfterAppend(old(table.rows), stored);
      ValidIgnoresIdAndDueDate(task, stored.id, task.dueDate);
      r := Created(stored);
    }

    /**
     PUT: 400 for an invalid body or a route id that differs from the body's
     Id, 404 when no row has that Id; otherwise Title, Description, DueDate
     and Status of the stored row are set from the body while its Id,
     Priority and Category stay, no other row changes, and the stored row
     (not the body) is returned.
     */
    method UpdateTask(id: int, task: TaskItem) returns (r: Response<TaskItem>)
      requires table.Valid()
      modifies table
      ensures table.Valid() && table.nextId == old(table.nextId)
      ensures r.Ok? || r.BadRequest? || r.NotFound?
      ensures r.BadRequest? <==> !IsValid(task) || id != task.id
      ensures !IsValid(task) ==> r.problem == InvalidModel(Violations(task))
      ensures IsValid(task) && id != task.id ==> r.problem == IdMismatch
      ensures r.NotFound? <==> !r.BadRequest? && !HasId(old(table.rows), id)
      ensures !r.Ok? ==> table.rows == old(table.rows)
      ensures r.Ok? ==>
                var i := Find(old(table.rows), id).value;
                var before := old(table.rows)[i];
                && table.rows == old(table.rows)[i := r.value]
                && r.value.title == task.title
                && r.value.description == task.description
                && r.value.dueDate == task.dueDate
                && r.value.status == task.status
                && r.value.id == before.id == id
                && r.value.priority == before.priority
                && r.value.category == before.category
      ensures r.Ok? ==> GetSpecificTask(id) == Ok(r.value)
      ensures forall other :: other != id ==> Find(table.rows, other) == Find(old(table.rows), other)
      ensures AllValid(old(table.rows)) ==> AllValid(table.rows)
    {
      if !IsValid(task) {
        r := BadRequest(InvalidModel(Violations(task)));
        return;
      }
      if id != task.id {
        r := BadRequest(IdMismatch);
        return;
      }
      var found := Find(table.rows, id);
      if found.None? {
        r := NotFound;
        return;
      }
      var i := found.value;
      var existingTask := table.rows[i];
      existingTask := existingTask.(title := task.title);
      existingTask := existingTask.(description := task.description);
      existingTask := existingTask.(dueDate := task.dueDate);
      existingTask := existingTask.(status := task.status);
      if AllValid(table.rows) {
        KeptFieldsStayValid(table.rows[i], task);
      }
      ReplaceKeepsUniqueIds(table.rows, i, existingTask);
      table.ReplaceAt(i, existingTask);
      r := Ok(existingTask);
    }

    /** `Any(t => t.Id == id)`: whether some row has the Id. */
    function TaskFound(id: int): (found: bool)
      reads table
      ensures found <==> HasId(table.rows, id)
    {
      Find(table.rows, id).Some?
    }

    /**
     DELETE: 404 when no row has the Id; otherwise exactly that row is removed,
     every other row stays in its order, and the Id is no longer found.
     */
    method DeleteTask(id: int) returns (r: Response<int>)
      requires table.Valid()
      modifies table
      ensures table.Valid() && table.nextId == old(table.nextId)
      ensures r.Ok? || r.NotFound?
      ensures r.NotFound? <==> !HasId(old(table.rows), id)
      ensures r.NotFound? ==> table.rows == old(table.rows)
      ensures r.Ok? ==>
                && r.value == id
                && var i := Find(old(table.rows), id).value;
                   table.rows == old(table.rows)[..i] + old(table.rows)[i + 1..]
      ensures !HasId(table.rows, id) && GetSpecificTask(id) == NotFound
      ensures forall t :: t in table.rows <==> t in old(table.rows) && t.id != id
      ensures AllValid(old(table.rows)) ==> AllValid(table.rows)
    {
      var found := Find(table.rows, id);
      if found.None? {
        r := NotFound;
        return;
      }
      RemoveExactlyThatRow(table.rows, found.value);
      table.RemoveAt(found.value);
      r := Ok(id);
    }
  }

  /**
   A valid row updated from a valid body stays valid: the copied fields pass
   because the body's do, the kept Priority and Category because the row's do.
   */
  lemma KeptFieldsStayValid(existing: TaskItem, task: TaskItem)
    requires IsValid(existing) && IsValid(task)
    ensures IsValid(existing.(title := task.title, description := task.description,
                              dueDate := task.dueDate, status := task.status))
  {
  }
}

/**
 The task controller of the paginated application: list with page/pageSize,
 fetch by id, create, whole-record update, delete and substring search, over
 the task table.

 The controller is an [ApiController], so the framework answers 400 with the
 model-state errors before an action that takes a task body runs when that
 body fails validation. The actions' own `ModelState.IsValid` checks test the
 same predicate and are modelled by that one gate.
 */
module DotNetCoreTasks {
  import opened TaskItems
  import opened TaskStore
  import opened Http

  /** C# `int`. */
  type Int32 = x: int | -0x8000_0000 <= x < 0x8000_0000

  /** The body of a successful list: the total, the clamped paging values and one page of rows. */
  datatype PageResult = PageResult(totalCount: int, page: int, pageSize: int, tasks: seq<TaskItem>)

  /** q occurs in s starting at position k. */
  predicate OccursAt(s: string, q: string, k: int) {
    0 <= k <= |s| - |q| && s[k..k + |q|] == q
  }

  /** `s.Contains(q)`: q occurs in s as a contiguous substring. */
  predicate Contains(s: string, q: string) {
    exists k | 0 <= k <= |s| - |q| :: OccursAt(s, q, k)
  }

  /**
   The search filter: the title or the description contains the query. A null
   column compares as false, as the database's LIKE does.
   */
  predicate Matches(t: TaskItem, query: string) {
    (t.title.Some? && Contains(t.title.value, query))
    || (t.description.Some? && Contains(t.description.value, query))
  }

  /** The rows that match the query, in store order. */
  function Matching(rows: seq<TaskItem>, query: string): (r: seq<TaskItem>)
    ensures forall t :: t in r <==> t in rows && Matches(t, query)
    ensures forall t :: multiset(r)[t] == if Matches(t, query) then multiset(rows)[t] else 0
  {
    if rows == [] then []
    else
      assert rows == [rows[0]] + rows[1..];
      (if Matches(rows[0], query) then [rows[0]] else []) + Matching(rows[1..], query)
  }

  /** Filtering distributes over concatenation, so the result keeps the store's order. */
  lemma {:induction false} MatchingKeepsOrder(a: seq<TaskItem>, b: seq<TaskItem>, query: string)
    ensures Matching(a + b, query) == Matching(a, query) + Matching(b, query)
  {
    if a == [] {
      assert a + b == b;
    } else {
      assert (a + b)[1..] == a[1..] + b;
      MatchingKeepsOrder(a[1..], b, query);
    }
  }

  /**
   Page `page` of size `pageSize` (both at least 1): the rows from position
   (page-1)*pageSize on, at most pageSize of them.
   */
  function PageSlice(rows: seq<TaskItem>, page: int, pageSize: int): (r: seq<TaskItem>)
    requires page >= 1 && pageSize >= 1
    ensures (page - 1) * pageSize >= 0
    ensures |r| == Min(pageSize, Max(0, |rows| - (page - 1) * pageSize))
    ensures forall k :: 0 <= k < |r| ==> r[k] == rows[(page - 1) * pageSize + k]
  {
    var start := (page - 1) * pageSize;
    rows[Min(start, |rows|)..Min(start + pageSize, |rows|)]
  }

  /** 12 rows: page 2 of size 5 holds rows 5..9; page 1 of size 100 holds all 12. */
  lemma PagingExamples(rows: seq<TaskItem>)
    requires |rows| == 12
    ensures PageSlice(rows, 2, 5) == rows[5..10]
    ensures PageSlice(rows, 1, 100) == rows
    ensures PageSlice(rows, 4, 5) == []
  {
  }

  class TaskController {
    const table: TaskTable

    constructor (table: TaskTable)
      ensures this.table == table
    {
      this.table := table;
    }

    /**
     GET with paging: page and pageSize are raised to at least 1, the total
     counts every row, and the page is the slice that starts (page-1)*pageSize
     rows in. The C# defaults are page 1 of size 10. The offset is computed
     without the 32-bit overflow of the C# code (see OffsetAsWritten).
     */
    method GetTasks(page: Int32 := 1, pageSize: Int32 := 10) returns (r: Response<PageResult>)
      ensures r.Ok?
      ensures r.value.page == Max(page, 1) && r.value.pageSize == Max(pageSize, 1)
      ensures r.value.totalCount == |table.rows|
      ensures r.value.tasks == PageSlice(table.rows, r.value.page, r.value.pageSize)
    {
      var p := Max(page, 1);
      var size := Max(pageSize, 1);
      var totalTasks := |table.rows|;
      var offset := (p - 1) * size;
      var tasks := Take(Skip(table.rows, offset), size);
      SkipTakeIsSlice(table.rows, offset, size);
      r := Ok(PageResult(totalTasks, p, size, tasks));
    }

    /** GET by id: the row with that Id, or 404 when there is none. */
    function GetSpecificTask(id: int): (r: Response<TaskItem>)
      reads table
      ensures r.Ok? || r.NotFound?
      ensures r.Ok? <==> HasId(table.rows, id)
      ensures r.Ok? ==> r.value in table.rows && r.value.id == id
    {
      match Find(table.rows, id)
      case None => NotFound
      case Some(i) => Ok(table.rows[i])
    }

    /**
     POST: an invalid body is refused with its model-state errors and nothing
     is stored; a valid one is stored under a fresh Id and returned (201).
     */
    method AddTask(task: TaskItem) returns (r: Response<TaskItem>)
      requires table.Valid()
      modifies table
      ensures table.Valid()
      ensures r.Created? || r.BadRequest?
      ensures r.BadRequest? <==> !IsValid(task)
      ensures r.BadRequest? ==>
                && r.problem == InvalidModel(Violations(task))
                && table.rows == old(table.rows) && table.nextId == old(table.nextId)
      ensures r.Created? ==>
                && r.value == task.(id := r.value.id)
                && r.value.id == old(table.nextId) && table.nextId == old(table.nextId) + 1
                && !HasId(old(table.rows), r.value.id)
                && table.rows == old(table.rows) + [r.value]
                && Find(table.rows, r.value.id) == Some(|old(table.rows)|)
                && GetSpecificTask(r.value.id) == Ok(r.value)
      ensures AllValid(old(table.rows)) ==> AllValid(table.rows)
    {
      if !IsValid(task) {
        r := BadRequest(InvalidModel(Violations(task)));
        return;
      }
      var stored := table.Insert(task);
      FindAfterAppend(old(table.rows), stored);
      ValidIgnoresIdAndDueDate(task, stored.id, task.dueDate);
      r := Created(stored);
    }

    /**
     PUT: 400 for an invalid body or a route id that differs from the body's
     Id; 404 when no row has that Id (the update touches no row and the
     concurrency exception finds the row absent); otherwise the row is replaced
     by the body as a whole and the body is returned.
     */
    method UpdateTask(id: int, updatedTask: TaskItem) returns (r: Response<TaskItem>)
      requires table.Valid()
      modifies table
      ensures table.Valid() && table.nextId == old(table.nextId)
      ensures r.Ok? || r.BadRequest? || r.NotFound?
      ensures r.BadRequest? <==> !IsValid(updatedTask) || id != updatedTask.id
      ensures !IsValid(updatedTask) ==> r.problem == InvalidModel(Violations(updatedTask))
      ensures IsValid(updatedTask) && id != updatedTask.id ==> r.problem == IdMismatch
      ensures r.NotFound? <==> !r.BadRequest? && !HasId(old(table.rows), id)
      ensures !r.Ok? ==> table.rows == old(table.rows)
      ensures r.Ok? ==>
                && r.value == updatedTask
                && var i := Find(old(table.rows), id).value;
                   table.rows == old(table.rows)[i := updatedTask]
      ensures r.Ok? ==> GetSpecificTask(id) == Ok(r.value)
      ensures forall other :: other != id ==> Find(table.rows, other) == Find(old(table.rows), other)
      ensures AllValid(old(table.rows)) ==> AllValid(table.rows)
    {
      if !IsValid(updatedTask) {
        r := BadRequest(InvalidModel(Violations(updatedTask)));
        return;
      }
      if id != updatedTask.id {
        r := BadRequest(IdMismatch);
        return;
      }
      var found := Find(table.rows, id);
      if found.None? {
        r := NotFound;
        return;
      }
      ReplaceKeepsUniqueIds(table.rows, found.value, updatedTask);
      table.ReplaceAt(found.value, updatedTask);
      r := Ok(updatedTask);
    }

    /**
     DELETE: 404 when no row has the Id; otherwise exactly that row is removed,
     every other row stays in its order, and the Id is no longer found.
     */
    method DeleteTask(id: int) returns (r: Response<int>)
      requires table.Valid()
      modifies table
      ensures table.Valid() && table.nextId == old(table.nextId)
      ensures r.Ok? || r.NotFound?
      ensures r.NotFound? <==> !HasId(old(table.rows), id)
      ensures r.NotFound? ==> table.rows == old(table.rows)
      ensures r.Ok? ==>
                && r.value == id
                && var i := Find(old(table.rows), id).value;
                   table.rows == old(table.rows)[..i] + old(table.rows)[i + 1..]
      ensures !HasId(table.rows, id) && GetSpecificTask(id) == NotFound
      ensures forall t :: t in table.rows <==> t in old(table.rows) && t.id != id
      ensures AllValid(old(table.rows)) ==> AllValid(table.rows)
    {
      var found := Find(table.rows, id);
      if found.None? {
        r := NotFound;
        return;
      }
      RemoveExactlyThatRow(table.rows, found.value);
      table.RemoveAt(found.value);
      r := Ok(id);
    }

    /**
     GET search: a null or blank query is refused; otherwise the rows whose
     title or description contains the query, in store order.
     */
    function SearchTasks(query: Option<string>): (r: Response<seq<TaskItem>>)
      reads table
      ensures r.Ok? || r.BadRequest?
      ensures r.BadRequest? <==> IsNullOrWhiteSpace(query)
      ensures r.BadRequest? ==> r.problem == EmptyQuery
      ensures r.Ok? ==> forall t :: t in r.value <==> t in table.rows && Matches(t, query.value)
      ensures r.Ok? ==> r.value == Matching(table.rows, query.value)
    {
      if IsNullOrWhiteSpace(query) then BadRequest(EmptyQuery)
      else Ok(Matching(table.rows, query.value))
    }
  }

  /** Unchecked C# `int` arithmetic: keep the low 32 bits, read as two's complement. */
  function Wrap32(x: int): (r: Int32)
    ensures (x - r) % 0x1_0000_0000 == 0
    ensures -0x8000_0000 <= x < 0x8000_0000 ==> r == x
  {
    var m := x % 0x1_0000_0000;
    if m < 0x8000_0000 then m else m - 0x1_0000_0000
  }

  /** The offset as the C# code computes it: `(page - 1) * pageSize` in `int`. */
  function OffsetAsWritten(page: Int32, pageSize: Int32): (r: Int32)
    ensures (Max(page, 1) - 1) * Max(pageSize, 1) >= 0
    ensures (Max(page, 1) - 1) * Max(pageSize, 1) < 0x8000_0000 ==>
              r == (Max(page, 1) - 1) * Max(pageSize, 1)
  {
    Wrap32((Max(page, 1) - 1) * Max(pageSize, 1))
  }

  /**
   The page the C# code returns when the wrapped offset is not negative. A
   negative offset reaches the database as OFFSET, and what happens then
   depends on the provider, so that case is not modelled.
   */
  function PageAsWritten(rows: seq<TaskItem>, page: Int32, pageSize: Int32): (r: seq<TaskItem>)
    requires OffsetAsWritten(page, pageSize) >= 0
    ensures |r| == Min(Max(pageSize, 1), Max(0, |rows| - OffsetAsWritten(page, pageSize)))
    ensures forall k :: 0 <= k < |r| ==> r[k] == rows[OffsetAsWritten(page, pageSize) + k]
  {
    Take(Skip(rows, OffsetAsWritten(page, pageSize)), Max(pageSize, 1))
  }

  /**
   Page 65537 of size 65536 starts 2^32 rows in, past the end of any table,
   so the page should be empty; the wrapped offset is 0 and the C# code
   returns the first rows instead.
   */
  lemma PageAsWrittenWraps(rows: seq<TaskItem>)
    requires 0 < |rows| < 0x8000_0000
    ensures OffsetAsWritten(65537, 65536) == 0
    ensures PageAsWritten(rows, 65537, 65536) == rows[..Min(65536, |rows|)]
    ensures PageSlice(rows, 65537, 65536) == []
    ensures PageAsWritten(rows, 65537, 65536) != PageSlice(rows, 65537, 65536)
  {
  }

  /** While the offset fits in 32 bits, the page as written is the intended page: only overflow tells them apart. */
  lemma PageAsWrittenAgrees(rows: seq<TaskItem>, page: Int32, pageSize: Int32)
    requires (Max(page, 1) - 1) * Max(pageSize, 1) < 0x8000_0000
    ensures OffsetAsWritten(page, pageSize) >= 0
    ensures PageAsWritten(rows, page, pageSize) == PageSlice(rows, Max(page, 1), Max(pageSize, 1))
  {
    var p, size := Max(page, 1), Max(pageSize, 1);
    var offset := (p - 1) * size;
    assert OffsetAsWritten(page, pageSize) == offset;
    SkipTakeIsSlice(rows, offset, size);
    assert PageSlice(rows, p, size) == rows[Min(offset, |rows|)..Min(offset + size, |rows|)];
  }
}

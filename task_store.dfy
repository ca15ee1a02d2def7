/**
 The task table that both controllers reach through their database context:
 an ordered sequence of rows keyed by Id, with an identity counter that hands
 out each Id once. The queries the controllers run against it (lookup by key,
 existence, skip/take) are functions over the rows.
 */
module TaskStore {
  import opened TaskItems

  function Min(a: int, b: int): int { if a <= b then a else b }
  function Max(a: int, b: int): int { if a <= b then b else a }

  /** Id is the primary key: no two rows share one. */
  predicate UniqueIds(rows: seq<TaskItem>) {
    forall i, j :: 0 <= i < j < |rows| ==> rows[i].id != rows[j].id
  }

  /** Some row has this Id (the `Any(t => t.Id == id)` query). */
  predicate HasId(rows: seq<TaskItem>, id: int) {
    exists i :: 0 <= i < |rows| && rows[i].id == id
  }

  /** Every stored row passes model validation. */
  predicate AllValid(rows: seq<TaskItem>) {
    forall i :: 0 <= i < |rows| ==> IsValid(rows[i])
  }

  /** Lookup by primary key: the position of the first row with this Id, if any. */
  function Find(rows: seq<TaskItem>, id: int): (r: Option<nat>)
    ensures r.None? <==> !HasId(rows, id)
    ensures r.Some? ==> r.value < |rows| && rows[r.value].id == id
    ensures r.Some? ==> forall j :: 0 <= j < r.value ==> rows[j].id != id
  {
    if rows == [] then None
    else if rows[0].id == id then Some(0)
    else
      match Find(rows[1..], id)
      case None => None
      case Some(k) => Some(k + 1)
  }

  /** With unique Ids, lookup finds each row at its own position. */
  lemma FindEachRow(rows: seq<TaskItem>, i: nat)
    requires UniqueIds(rows) && i < |rows|
    ensures Find(rows, rows[i].id) == Some(i)
  {
  }

  /** A row appended under an Id not yet present is found at the end. */
  lemma FindAfterAppend(rows: seq<TaskItem>, t: TaskItem)
    requires !HasId(rows, t.id)
    ensures Find(rows + [t], t.id) == Some(|rows|)
    ensures UniqueIds(rows) ==> UniqueIds(rows + [t])
  {
    var rows' := rows + [t];
    assert rows'[|rows|].id == t.id;
  }

  /**
   Removing the row at position i removes its Id from the table, keeps Ids
   unique, and keeps exactly the rows with any other Id.
   */
  lemma RemoveExactlyThatRow(rows: seq<TaskItem>, i: nat)
    requires UniqueIds(rows) && i < |rows|
    ensures UniqueIds(rows[..i] + rows[i + 1..])
    ensures !HasId(rows[..i] + rows[i + 1..], rows[i].id)
    ensures forall t :: t in rows[..i] + rows[i + 1..] <==> t in rows && t.id != rows[i].id
    ensures forall k :: 0 <= k < i ==> (rows[..i] + rows[i + 1..])[k] == rows[k]
    ensures forall k :: i < k < |rows| ==> (rows[..i] + rows[i + 1..])[k - 1] == rows[k]
  {
  }

  /** Overwriting a row with a record of the same Id keeps Ids unique. */
  lemma ReplaceKeepsUniqueIds(rows: seq<TaskItem>, i: nat, t: TaskItem)
    requires UniqueIds(rows) && i < |rows| && t.id == rows[i].id
    ensures UniqueIds(rows[i := t])
    ensures forall id :: Find(rows[i := t], id) == Find(rows, id)
  {
    forall id ensures Find(rows[i := t], id) == Find(rows, id) {
      if HasId(rows, id) {
        var k := Find(rows, id).value;
        FindEachRow(rows, k);
        FindEachRow(rows[i := t], k);
      }
    }
  }

  /** LINQ Skip: drop the first n elements (none when n is not positive). */
  function Skip<T>(s: seq<T>, n: int): (r: seq<T>)
    ensures |r| == |s| - Min(Max(n, 0), |s|)
    ensures forall k :: 0 <= k < |r| ==> r[k] == s[k + Min(Max(n, 0), |s|)]
  {
    if n <= 0 then s else if n >= |s| then [] else s[n..]
  }

  /** LINQ Take: keep at most the first n elements (none when n is not positive). */
  function Take<T>(s: seq<T>, n: int): (r: seq<T>)
    ensures |r| == Min(Max(n, 0), |s|)
    ensures forall k :: 0 <= k < |r| ==> r[k] == s[k]
  {
    if n <= 0 then [] else if n >= |s| then s else s[..n]
  }

  /** Skip then Take is the contiguous slice [offset, offset + count) cut to the sequence. */
  lemma SkipTakeIsSlice<T>(s: seq<T>, offset: nat, count: nat)
    ensures Take(Skip(s, offset), count) == s[Min(offset, |s|)..Min(offset + count, |s|)]
  {
    var r := Take(Skip(s, offset), count);
    var slice := s[Min(offset, |s|)..Min(offset + count, |s|)];
    assert |r| == |slice|;
    forall k | 0 <= k < |r| ensures r[k] == slice[k] {
      assert Skip(s, offset)[k] == s[k + Min(offset, |s|)];
    }
  }

  /**
   The task table. Its rows are the table's contents in store order; `nextId`
   is the identity counter: every stored Id lies below it, so an Id it hands
   out has never been used.
   */
  class TaskTable {
    var rows: seq<TaskItem>
    var nextId: int

    ghost predicate Valid()
      reads this
    {
      && 1 <= nextId
      && UniqueIds(rows)
      && (forall i :: 0 <= i < |rows| ==> 1 <= rows[i].id < nextId)
    }

    constructor ()
      ensures Valid() && rows == [] && nextId == 1
    {
      rows := [];
      nextId := 1;
    }

    /**
     Add + SaveChanges of a new entity: the identity column assigns the next
     Id, and the stored row (with that Id) is appended.
     */
    method Insert(t: TaskItem) returns (stored: TaskItem)
      requires Valid()
      modifies this
      ensures Valid()
      ensures stored == t.(id := old(nextId)) && !HasId(old(rows), stored.id)
      ensures rows == old(rows) + [stored] && nextId == old(nextId) + 1
    {
      stored := t.(id := nextId);
      assert !HasId(rows, stored.id);
      FindAfterAppend(rows, stored);
      rows := rows + [stored];
      nextId := nextId + 1;
    }

    /** Remove + SaveChanges: the row at position i leaves the table. */
    method RemoveAt(i: nat)
      requires Valid() && i < |rows|
      modifies this
      ensures Valid()
      ensures rows == old(rows[..i] + rows[i + 1..]) && nextId == old(nextId)
    {
      RemoveExactlyThatRow(rows, i);
      rows := rows[..i] + rows[i + 1..];
    }

    /** SaveChanges of a modified entity: the row at position i, same Id, gets new values. */
    method ReplaceAt(i: nat, t: TaskItem)
      requires Valid() && i < |rows| && t.id == rows[i].id
      modifies this
      ensures Valid()
      ensures rows == old(rows)[i := t] && nextId == old(nextId)
    {
      ReplaceKeepsUniqueIds(rows, i, t);
      rows := rows[i := t];
    }
  }
}

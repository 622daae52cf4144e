/** The task controller: `createTask`, `getTasks` and `completeTask` over
    an in-memory `task` table. */
module TaskController {
  import opened Text
  import opened Tasks
  import opened Query

  /** The title check of `createTask`: `None` when the request is answered
      400, because the title is absent or blank; otherwise the trimmed
      title that is stored. */
  function AcceptedTitle(title: Option<string>): (r: Option<string>)
    ensures r.None? <==> (title.None? || IsBlank(title.value))
    ensures r.Some? ==> r.value == Trim(title.value) && r.value != [] && IsTrimmed(r.value)
  {
    match title
    case None => None
    case Some(s) => if Trim(s) == "" then None else Some(Trim(s))
  }

  /** `description?.trim() || ''`: the trimmed description, and the empty
      string when it is absent or blank. */
  function StoredDescription(description: Option<string>): (r: string)
    ensures IsTrimmed(r)
    ensures r == [] <==> (description.None? || IsBlank(description.value))
    ensures description.Some? ==> r == Trim(description.value)
  {
    match description
    case None => ""
    case Some(d) => var t := Trim(d); if t == "" then "" else t
  }

  /** `SELECT * FROM task WHERE id = ?`, first row: `None` exactly when no
      row carries the id. */
  function FindById(rows: seq<Task>, id: nat): (r: Option<Task>)
    ensures r.None? <==> forall t :: t in rows ==> t.id != id
    ensures r.Some? ==> r.value in rows && r.value.id == id
  {
    if rows == [] then None
    else if rows[0].id == id then Some(rows[0])
    else FindById(rows[1..], id)
  }

  /** `UPDATE task SET completed = true WHERE id = ?`: the rows carrying
      the id become completed, nothing else changes. */
  function MarkCompleted(rows: seq<Task>, id: nat): (r: seq<Task>)
    ensures |r| == |rows|
    ensures forall i :: 0 <= i < |rows| ==> Successor(rows[i], r[i])
    ensures forall i :: 0 <= i < |rows| ==>
      (r[i].completed <==> rows[i].completed || rows[i].id == id)
  {
    if rows == [] then []
    else
      var rest := MarkCompleted(rows[1..], id);
      var row := if rows[0].id == id then rows[0].(completed := true) else rows[0];
      assert forall i :: 0 < i < |rows| ==> ([row] + rest)[i] == rest[i - 1];
      [row] + rest
  }

  /** `after` is a later state of the row `before`: only `completed` may
      change, and only from false to true. */
  predicate Successor(before: Task, after: Task) {
    after.id == before.id && after.title == before.title
    && after.description == before.description
    && after.createdAt == before.createdAt
    && (before.completed ==> after.completed)
  }

  /** The table `after` keeps every row of `before`, in place, each in the
      same or a later state of its lifecycle. */
  predicate Evolves(before: seq<Task>, after: seq<Task>) {
    |before| <= |after|
    && forall i :: 0 <= i < |before| ==> Successor(before[i], after[i])
  }

  /** Appending a row keeps every earlier row as it was. */
  lemma AppendEvolves(rows: seq<Task>, t: Task)
    ensures Evolves(rows, rows + [t])
  {
    forall i | 0 <= i < |rows| ensures Successor(rows[i], (rows + [t])[i]) {
      assert (rows + [t])[i] == rows[i];
    }
  }

  lemma EvolvesTransitive(a: seq<Task>, b: seq<Task>, c: seq<Task>)
    requires Evolves(a, b) && Evolves(b, c)
    ensures Evolves(a, c)
  {
  }

  /** A completed task never shows up in a later listing. */
  lemma CompletedTaskNotListed(rows: seq<Task>, id: nat)
    ensures forall t :: t in RecentIncomplete(MarkCompleted(rows, id)) ==> t.id != id
  {
    var after := MarkCompleted(rows, id);
    forall t | t in after && !t.completed ensures t.id != id {
      var i :| 0 <= i < |after| && after[i] == t;
    }
    ListedCarryNot(after, id);
  }

  lemma ListedCarryNot(rows: seq<Task>, id: nat)
    requires forall t :: t in rows && !t.completed ==> t.id != id
    ensures forall t :: t in RecentIncomplete(rows) ==> t.id != id
  {
    var listed := RecentIncomplete(rows);
    forall t | t in listed ensures t.id != id {
      assert t in rows && !t.completed;
    }
  }

  /** No two rows share an id. */
  predicate UniqueIds(rows: seq<Task>) {
    forall i, j :: 0 <= i < j < |rows| ==> rows[i].id != rows[j].id
  }

  lemma UniqueIdsTail(rows: seq<Task>)
    requires rows != [] && UniqueIds(rows)
    ensures UniqueIds(rows[1..])
  {
    forall i, j | 0 <= i < j < |rows| - 1 ensures rows[1..][i].id != rows[1..][j].id {
      assert rows[1..][i] == rows[i + 1] && rows[1..][j] == rows[j + 1];
    }
  }

  lemma {:induction false} MarkAbsent(rows: seq<Task>, id: nat)
    requires forall t :: t in rows ==> t.id != id
    ensures MarkCompleted(rows, id) == rows
  {
    if rows != [] {
      MarkAbsent(rows[1..], id);
    }
  }

  /** The update on a table with a first row: the first row is marked when
      it carries the id, and the rest is updated alike. */
  lemma MarkCons(first: Task, rest: seq<Task>, id: nat)
    ensures MarkCompleted([first] + rest, id)
      == [if first.id == id then first.(completed := true) else first] + MarkCompleted(rest, id)
  {
    assert ([first] + rest)[1..] == rest;
  }

  /** Completing an incomplete task takes exactly that task out of the
      incomplete rows the listing draws from. */
  lemma {:induction false} CompletionRemovesOne(rows: seq<Task>, id: nat)
    requires UniqueIds(rows)
    requires FindById(rows, id).Some? && !FindById(rows, id).value.completed
    ensures multiset(Incomplete(MarkCompleted(rows, id))) + multiset{FindById(rows, id).value}
      == multiset(Incomplete(rows))
  {
    var found := FindById(rows, id).value;
    var first, rest := rows[0], rows[1..];
    assert rows == [first] + rest;
    if first.id == id {
      assert found == first;
      forall t | t in rest ensures t.id != id {
        var j :| 0 <= j < |rest| && rest[j] == t;
        assert rows[j + 1] == t;
      }
      MarkAbsent(rest, id);
      CompletionOfHead(first, rest, id);
    } else {
      assert FindById(rest, id).value == found;
      UniqueIdsTail(rows);
      CompletionRemovesOne(rest, id);
      CompletionPastFirst(first, rest, id, found);
    }
  }

  lemma CompletionPastFirst(first: Task, rest: seq<Task>, id: nat, found: Task)
    requires first.id != id
    requires multiset(Incomplete(MarkCompleted(rest, id))) + multiset{found}
      == multiset(Incomplete(rest))
    ensures multiset(Incomplete(MarkCompleted([first] + rest, id))) + multiset{found}
      == multiset(Incomplete([first] + rest))
  {
    MarkCons(first, rest, id);
    IncompleteCons(first, rest);
    IncompleteCons(first, MarkCompleted(rest, id));
  }

  lemma CompletionOfHead(first: Task, rest: seq<Task>, id: nat)
    requires first.id == id && !first.completed
    requires MarkCompleted(rest, id) == rest
    ensures multiset(Incomplete(MarkCompleted([first] + rest, id))) + multiset{first}
      == multiset(Incomplete([first] + rest))
  {
    MarkCons(first, rest, id);
    IncompleteCons(first, rest);
    IncompleteCons(first.(completed := true), rest);
  }

  /** After the update, the lookup of `completeTask` finds the task
      completed, so a second completion is rejected. */
  lemma {:induction false} CompletionIsTerminal(rows: seq<Task>, id: nat)
    requires FindById(rows, id).Some?
    ensures FindById(MarkCompleted(rows, id), id).Some?
    ensures FindById(MarkCompleted(rows, id), id).value.completed
  {
    var after := MarkCompleted(rows, id);
    var t :| t in after && t.id == id by {
      var i :| 0 <= i < |rows| && rows[i] == FindById(rows, id).value;
      assert after[i].id == id;
    }
  }

  /** Looking up the id of a row just appended to a table where no other
      row carries it finds that row. */
  lemma FindAppended(rows: seq<Task>, t: Task)
    requires forall i :: 0 <= i < |rows| ==> rows[i].id < t.id
    ensures FindById(rows + [t], t.id) == Some(t)
  {
    var found := FindById(rows + [t], t.id);
    assert found.value in rows + [t];
  }

  /** What the table keeps between requests: ids are positive, below the
      next `AUTO_INCREMENT` value and increasing in insertion order;
      creation times never exceed the clock and never decrease; every row
      is well formed. */
  predicate TableInvariant(rows: seq<Task>, nextId: nat, clock: nat) {
    && 1 <= nextId
    && (forall i :: 0 <= i < |rows| ==>
          1 <= rows[i].id < nextId && rows[i].createdAt <= clock && WellFormed(rows[i]))
    && (forall i, j :: 0 <= i < j < |rows| ==>
          rows[i].id < rows[j].id && rows[i].createdAt <= rows[j].createdAt)
  }

  lemma InvariantGivesUniqueIds(rows: seq<Task>, nextId: nat, clock: nat)
    requires TableInvariant(rows, nextId, clock)
    ensures UniqueIds(rows)
  {
  }

  /** Inserting a well-formed row with the next id at the current time keeps
      the table invariant. */
  lemma InsertKeepsInvariant(rows: seq<Task>, nextId: nat, clock: nat, t: Task)
    requires TableInvariant(rows, nextId, clock)
    requires t.id == nextId && clock <= t.createdAt && WellFormed(t)
    ensures TableInvariant(rows + [t], nextId + 1, t.createdAt)
  {
    var after := rows + [t];
    forall i, j | 0 <= i < j < |after|
      ensures after[i].id < after[j].id && after[i].createdAt <= after[j].createdAt
    {
      if j == |rows| { assert after[i] == rows[i]; }
    }
  }

  /** The completion update keeps the table invariant. */
  lemma MarkKeepsInvariant(rows: seq<Task>, nextId: nat, clock: nat, id: nat)
    requires TableInvariant(rows, nextId, clock)
    ensures TableInvariant(MarkCompleted(rows, id), nextId, clock)
  {
  }

  class TaskStore {
    /** The rows of the `task` table, in insertion order. */
    var rows: seq<Task>
    /** The next `AUTO_INCREMENT` value. */
    var nextId: nat
    /** The last value `NOW()` returned. */
    var clock: nat

    ghost predicate Valid()
      reads this
    {
      TableInvariant(rows, nextId, clock)
    }

    /** An empty table. */
    constructor ()
      ensures Valid()
      ensures rows == [] && nextId == 1 && clock == 0
    {
      rows, nextId, clock := [], 1, 0;
    }

    /** `POST /api/tasks`. `elapsed` is how far the clock behind `NOW()`
        has advanced since its last reading. */
    method CreateTask(title: Option<string>, description: Option<string>, elapsed: nat)
      returns (r: CreateResponse)
      requires Valid()
      modifies this
      ensures Valid()
      ensures Evolves(old(rows), rows)
      ensures r == TitleRequired <==> title.None? || IsBlank(title.value)
      ensures r == TitleRequired ==>
        rows == old(rows) && nextId == old(nextId) && clock == old(clock)
      ensures r.Created? ==>
        && r.task == Task(old(nextId), Trim(title.value), StoredDescription(description),
                          false, old(clock) + elapsed)
        && rows == old(rows) + [r.task]
        && nextId == old(nextId) + 1
        && clock == old(clock) + elapsed
      ensures r.Created? ==> forall t :: t in old(rows) ==> t.id != r.task.id
    {
      var accepted := AcceptedTitle(title);
      if accepted.None? {
        return TitleRequired;
      }
      ghost var before := rows;
      var task := Insert(accepted.value, StoredDescription(description), elapsed);
      AppendEvolves(before, task);
      r := Created(task);
    }

    /** The `INSERT` with `completed = false` and `created_at = NOW()`,
        followed by the `SELECT` of the new id: answers the stored row. */
    method Insert(title: string, description: string, elapsed: nat) returns (task: Task)
      requires Valid()
      requires title != [] && IsTrimmed(title) && IsTrimmed(description)
      modifies this
      ensures Valid()
      ensures task == Task(old(nextId), title, description, false, old(clock) + elapsed)
      ensures rows == old(rows) + [task]
      ensures nextId == old(nextId) + 1 && clock == old(clock) + elapsed
      ensures forall t :: t in old(rows) ==> t.id != task.id
    {
      var now := clock + elapsed;
      var id := nextId;
      var row := Task(id, title, description, false, now);
      InsertKeepsInvariant(rows, nextId, clock, row);
      FindAppended(rows, row);
      rows, nextId, clock := rows + [row], nextId + 1, now;
      var stored := FindById(rows, id);
      task := stored.value;
    }

    /** `GET /api/tasks`; changes nothing. */
    method GetTasks() returns (r: ListResponse)
      ensures r.tasks == RecentIncomplete(rows)
      ensures r.count == |r.tasks|
    {
      var tasks := RecentIncomplete(rows);
      r := Listed(tasks, |tasks|);
    }

    /** `PATCH /api/tasks/:id/complete`. */
    method CompleteTask(id: nat) returns (r: CompleteResponse)
      requires Valid()
      modifies this
      ensures Valid()
      ensures nextId == old(nextId) && clock == old(clock)
      ensures Evolves(old(rows), rows)
      ensures r == NotFound <==> FindById(old(rows), id).None?
      ensures r == AlreadyCompleted <==>
        FindById(old(rows), id).Some? && FindById(old(rows), id).value.completed
      ensures !r.Completed? ==> rows == old(rows)
      ensures r.Completed? ==> r.taskId == id && rows == MarkCompleted(old(rows), id)
    {
      var existing := FindById(rows, id);
      if existing.None? {
        return NotFound;
      }
      if existing.value.completed {
        return AlreadyCompleted;
      }
      MarkKeepsInvariant(rows, nextId, clock, id);
      rows := MarkCompleted(rows, id);
      r := Completed(id);
    }
  }
}

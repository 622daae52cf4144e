/** The request sequences of the API's integration tests, played against
    the store; each assertion is a response those tests expect. */
module Scenarios {
  import opened Text
  import opened Tasks
  import opened Query
  import opened TaskController

  method CreateWithDescription() {
    var store := new TaskStore();
    var r := store.CreateTask(Some("Test Task"), Some("This is a test task"), 1);
    TrimOfTrimmed("Test Task");
    TrimOfTrimmed("This is a test task");
    assert r.Status() == 201 && r.Message() == "Task created successfully";
    assert r.task.title == "Test Task" && r.task.description == "This is a test task";
    assert !r.task.completed;
  }

  method CreateWithoutDescription() {
    var store := new TaskStore();
    var r := store.CreateTask(Some("Task without description"), None, 1);
    TrimOfTrimmed("Task without description");
    assert r.Status() == 201;
    assert r.task.title == "Task without description" && r.task.description == "";
  }

  method CreateWithoutTitle() {
    var store := new TaskStore();
    var r := store.CreateTask(None, Some("No title"), 1);
    assert r.Status() == 400 && r.Message() == "Title is required";
    assert IsBlank("   ");
    r := store.CreateTask(Some("   "), None, 1);
    assert r.Status() == 400 && r.Message() == "Title is required";
    assert store.rows == [];
  }

  method ListEmptyTable() {
    var store := new TaskStore();
    var l := store.GetTasks();
    assert l.tasks == [] && l.count == 0;
  }

  /** Stored titles: not empty, nothing to trim. */
  predicate PlainTitles(titles: seq<string>) {
    forall i :: 0 <= i < |titles| ==> titles[i] != [] && IsTrimmed(titles[i])
  }

  /** Creates one task per title, one clock tick apart. */
  method CreateAll(store: TaskStore, titles: seq<string>)
    requires store.Valid() && store.rows == [] && store.clock == 0
    requires PlainTitles(titles)
    modifies store
    ensures store.Valid()
    ensures |store.rows| == |titles|
    ensures forall i :: 0 <= i < |titles| ==>
      store.rows[i].title == titles[i] && !store.rows[i].completed
      && store.rows[i].createdAt == i + 1
  {
    var k := 0;
    while k < |titles|
      invariant 0 <= k <= |titles|
      invariant store.Valid()
      invariant store.clock == k && |store.rows| == k
      invariant forall i :: 0 <= i < k ==>
        store.rows[i].title == titles[i] && !store.rows[i].completed
        && store.rows[i].createdAt == i + 1
    {
      TrimOfTrimmed(titles[k]);
      var _ := store.CreateTask(Some(titles[k]), None, 1);
      k := k + 1;
    }
  }

  method ListSkipsCompleted(titles: seq<string>)
    requires |titles| == 3 && PlainTitles(titles)
  {
    var store := new TaskStore();
    CreateAll(store, titles);
    ghost var before := store.rows;
    var id := store.rows[2].id;
    var done := store.CompleteTask(id);
    assert done.Status() == 200;
    var l := store.GetTasks();
    assert forall t :: t in l.tasks ==> !t.completed;
    IncompleteOfActive(before);
    InvariantGivesUniqueIds(before, store.nextId, store.clock);
    CompletionRemovesOne(before, id);
    ghost var remaining := multiset(Incomplete(store.rows));
    assert |remaining + multiset{FindById(before, id).value}| == |multiset(before)| == 3;
    assert |remaining| == |Incomplete(store.rows)| == 2;
    assert l.count == 2;
  }

  method ListNewestFive(titles: seq<string>)
    requires |titles| == 7 && PlainTitles(titles)
  {
    var store := new TaskStore();
    CreateAll(store, titles);
    ListingOfActiveInOrder(store.rows);
    var l := store.GetTasks();
    assert l.count == 5;
    assert l.tasks[0].title == titles[6];
    assert l.tasks[4].title == titles[2];
  }

  method CompleteThenList() {
    var store := new TaskStore();
    var created := store.CreateTask(Some("Task to complete"), None, 1);
    TrimOfTrimmed("Task to complete");
    var id := created.task.id;
    ghost var before := store.rows;
    var done := store.CompleteTask(id);
    assert done.Status() == 200 && done.Message() == "Task marked as completed";
    assert done.taskId == id;
    var l := store.GetTasks();
    CompletedTaskNotListed(before, id);
    assert forall t :: t in l.tasks ==> t.id != id;
  }

  method CompleteUnknown() {
    var store := new TaskStore();
    var r := store.CompleteTask(99999);
    assert r.Status() == 404 && r.Message() == "Task not found";
  }

  method CompleteTwice() {
    var store := new TaskStore();
    var created := store.CreateTask(Some("Task"), None, 1);
    TrimOfTrimmed("Task");
    ghost var createdRows := store.rows;
    var first := store.CompleteTask(created.task.id);
    assert first.Status() == 200;
    ghost var completedRows := store.rows;
    var second := store.CompleteTask(created.task.id);
    assert second.Status() == 400 && second.Message() == "Task is already completed";
    EvolvesTransitive(createdRows, completedRows, store.rows);
    assert Evolves(createdRows, store.rows);
  }
}

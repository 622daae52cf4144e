/** The task record and the outcomes of the three task endpoints, with the
    HTTP status and the fixed text each outcome is answered with. */
module Tasks {
  import opened Text

  datatype Option<+T> = None | Some(value: T)

  /** One row of the `task` table. `createdAt` is the value `NOW()` gave
      at insertion, on an abstract clock. */
  datatype Task = Task(
    id: nat,
    title: string,
    description: string,
    completed: bool,
    createdAt: nat)

  /** What every stored row satisfies: the title is trimmed and not empty,
      the description is trimmed. */
  predicate WellFormed(t: Task) {
    t.title != [] && IsTrimmed(t.title) && IsTrimmed(t.description)
  }

  /** Outcome of `POST /api/tasks`. */
  datatype CreateResponse = Created(task: Task) | TitleRequired
  {
    /** 201 Created on success, 400 Bad Request otherwise. */
    function Status(): (code: nat)
      ensures code == 201 <==> Created?
      ensures code == 400 <==> TitleRequired?
    {
      match this
      case Created(_) => 201
      case TitleRequired => 400
    }

    /** The `message` field on success, the `error` field otherwise. */
    function Message(): (m: string)
      ensures m == "Task created successfully" <==> Created?
      ensures m == "Title is required" <==> TitleRequired?
    {
      match this
      case Created(_) => "Task created successfully"
      case TitleRequired => "Title is required"
    }
  }

  /** Outcome of `GET /api/tasks`: the rows and their number. */
  datatype ListResponse = Listed(tasks: seq<Task>, count: nat)
  {
    /** A listing always answers 200 OK. */
    function Status(): (code: nat)
      ensures code == 200
    {
      200
    }
  }

  /** Outcome of `PATCH /api/tasks/:id/complete`. */
  datatype CompleteResponse = Completed(taskId: nat) | NotFound | AlreadyCompleted
  {
    /** 200 OK on success, 404 Not Found for an unknown id, 400 Bad Request
        for a task already completed. */
    function Status(): (code: nat)
      ensures code == 200 <==> Completed?
      ensures code == 404 <==> NotFound?
      ensures code == 400 <==> AlreadyCompleted?
    {
      match this
      case Completed(_) => 200
      case NotFound => 404
      case AlreadyCompleted => 400
    }

    /** The `message` field on success, the `error` field otherwise. */
    function Message(): (m: string)
      ensures m == "Task marked as completed" <==> Completed?
      ensures m == "Task not found" <==> NotFound?
      ensures m == "Task is already completed" <==> AlreadyCompleted?
    {
      match this
      case Completed(_) => "Task marked as completed"
      case NotFound => "Task not found"
      case AlreadyCompleted => "Task is already completed"
    }
  }
}

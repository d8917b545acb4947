/** The JSON documents the task endpoints answer with, and what the browser
    code can observe of an answer: its status and the parsed body. */
module Wire {
  import opened Wrappers

  /** A task as the endpoints serialise it (`created_at` is sent as an ISO
      string; here it stays the timestamp it renders). */
  datatype TaskJson = TaskJson(
    id: int,
    title: string,
    description: Option<string>,
    createdAt: int,
    status: bool)

  datatype Body =
    /** {"success": true, "message": "Task deleted successfully"} */
    | Deleted
    /** {"success": true, "task": {id, title, description, created_at}} */
    | Updated(id: int, title: string, description: Option<string>, createdAt: int)
    /** {"success": true, "task": {id, title, description, created_at, status}} */
    | Toggled(task: TaskJson)
    /** {"task": {id, title, description, created_at, status}} */
    | Created(task: TaskJson)
    /** {"tasks": [...]} */
    | Listing(tasks: seq<TaskJson>)
    /** {"success": false, "error": "Task not found"} */
    | NotFound
    /** {"error": "Invalid request method"} */
    | InvalidMethod
    /** A document that is not JSON (the framework's error page). */
    | NotJson

  datatype Response = Response(status: int, body: Body)

  /** What a `fetch` produces: it rejects, or it resolves with a response. */
  datatype Outcome = Threw | Responded(response: Response)

  const DeletedMessage: string := "Task deleted successfully"
  const NotFoundError: string := "Task not found"
  const InvalidMethodError: string := "Invalid request method"

  /** `response.ok`: a status in the 2xx range. */
  predicate IsOk(status: int) {
    200 <= status <= 299
  }

  predicate IsJson(b: Body) {
    !b.NotJson?
  }

  /** The body's "success" key; `None` when the document has none. */
  function SuccessField(b: Body): Option<bool> {
    match b
    case Deleted => Some(true)
    case Updated(_, _, _, _) => Some(true)
    case Toggled(_) => Some(true)
    case NotFound => Some(false)
    case _ => None
  }

  /** The body's "error" key; `None` when the document has none. */
  function ErrorField(b: Body): Option<string> {
    match b
    case NotFound => Some(NotFoundError)
    case InvalidMethod => Some(InvalidMethodError)
    case _ => None
  }
}

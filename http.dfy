/** The responses of the API handlers: a status code and a JSON payload. */
module Http {
  import opened CommentStore
  import opened CommentTree

  datatype Payload =
    | ErrorMessage(error: string)           // `{ error }`
    | SuccessFlag                           // `{ success: true }`
    | NewId(id: string)                     // `{ id }`
    | Added(message: string, id: string)    // `{ message, id }`
    | Tree(comments: seq<Node>)             // the top-level comments with nested replies

  datatype Response = Response(status: int, payload: Payload)

  /** A handler's response and the comment collection after it ran. */
  datatype Outcome = Outcome(response: Response, store: seq<Doc>)
}

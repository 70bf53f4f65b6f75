/** The message record shared by the chat page and the chat endpoint. */
module Types {
  import opened Wrappers

  datatype Role = User | Assistant | System

  /** A chat message; `error` and `retryable` are the optional flags of the record. */
  datatype Message = Message(
    id: string,
    role: Role,
    content: string,
    error: Option<bool>,
    retryable: Option<bool>)
}

/** Replies of the HTTP handlers: a value on success, or one of the errors the
    handlers answer with. */
module Outcomes {

  /** An optional request field: absent (undefined, or falsy where the handler
      uses `||`) or present. */
  datatype Option<+T> = None | Some(value: T) {
    function GetOr(default: T): T {
      match this
      case Some(v) => v
      case None => default
    }
  }

  /** The failures a handler can answer with. */
  datatype Failure =
    | NotFound                 // `end` on an id that has no row
    | AlreadyEnded             // `end` on a row whose ended_at is set
    | NothingToUpdate          // `PUT /api/duration/:id` with no editable field
    | MissingField(column: string)  // a NOT NULL column bound to NULL on INSERT

  /** The HTTP status each failure is answered with. A NOT NULL violation is
      an exception the handler does not catch, so the framework answers 500. */
  function Status(f: Failure): (code: int)
    ensures code == 404 <==> f == NotFound
    ensures code == 500 <==> f.MissingField?
    ensures code == 400 <==> f == AlreadyEnded || f == NothingToUpdate
  {
    match f
    case NotFound => 404
    case AlreadyEnded => 400
    case NothingToUpdate => 400
    case MissingField(_) => 500
  }

  /** The `error` text of the JSON body the handler sends. A NOT NULL
      violation is not answered by the handler at all (the exception reaches
      the framework's default error handler), so it has no such text. */
  function Message(f: Failure): (text: Option<string>)
    ensures text.None? <==> f.MissingField?
    ensures text.Some? ==> |text.value| > 0
  {
    match f
    case NotFound => Some("记录不存在")
    case AlreadyEnded => Some("该事件已经结束")
    case NothingToUpdate => Some("没有要修改的内容")
    case MissingField(_) => None
  }

  datatype Reply<+T> = Ok(value: T) | Err(failure: Failure)
}

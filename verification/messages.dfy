/** The single entity of the chat, the table that holds it, and the shapes of
    what the controller receives and answers. */
module Messages {
  import opened Whitespace

  type Id = nat

  /** A reading of the server's clock. Real timestamps have one-second
      resolution, so two rows may share one. */
  type Timestamp = nat

  datatype Message = Message(id: Id, sender: string, text: string, createdAt: Timestamp, updatedAt: Timestamp)

  /** The `messages` table: rows by primary key, the auto-increment counter
      that hands out the next key, and the last clock reading taken. */
  datatype Store = Store(rows: map<Id, Message>, nextId: Id, clock: Timestamp)

  /** An empty table; auto-increment keys start at 1. */
  const EmptyStore := Store(map[], 1, 0)

  /** What a well-formed table looks like: each row carries its own key, every
      key was handed out already, timestamps are ordered and not in the future,
      and sender and text passed validation when they were written. */
  predicate Valid(s: Store)
  {
    && 1 <= s.nextId
    && forall k :: k in s.rows ==> RowValid(s, k)
  }

  predicate RowValid(s: Store, k: Id)
    requires k in s.rows
  {
    var m := s.rows[k];
    && m.id == k
    && 1 <= k < s.nextId
    && m.createdAt <= m.updatedAt <= s.clock
    && !IsPhpBlank(m.sender)
    && !IsPhpBlank(m.text)
  }

  /** A field of the request body as the validator sees it. `Missing` stands
      for an absent key and for JSON `null`; `NonString` for any other JSON
      value (a number, a boolean, an array, an object). */
  datatype Field = Missing | Str(s: string) | NonString

  /** The rule `required|string`: `required` refuses null and strings that are
      empty after PHP's `trim`; `string` refuses everything but strings. */
  predicate RequiredString(f: Field)
  {
    f.Str? && !IsPhpBlank(f.s)
  }

  datatype Body = One(message: Message) | Many(messages: seq<Message>) | NoContent

  /** The controller's answer: a JSON response, a failed validation, or a
      failed `findOrFail`. */
  datatype Response = Ok(status: nat, body: Body) | ValidationFail | NotFound

  /** The HTTP status the client receives. The client ignores it, so only
      the success codes matter; the failure codes here stand for whatever
      the framework's error rendering answers with. */
  function StatusCode(r: Response): nat
  {
    match r
    case Ok(status, _) => status
    case ValidationFail => 422
    case NotFound => 404
  }
}

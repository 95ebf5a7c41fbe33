/** The four actions of the API's message controller, each a pure function
    from the table and the request to the new table and the response. */
module MessageController {
  import opened Wrappers
  import opened Messages
  import Listing

  datatype Handled = Handled(store: Store, response: Response)

  /** `GET /messages`: every row, ordered by `created_at`; never fails. */
  function Index(s: Store): (h: Handled)
    ensures h.store == s
    ensures h.response.Ok? && h.response.status == 200 && h.response.body.Many?
    ensures Listing.IsListing(h.response.body.messages, s.rows)
  {
    Handled(s, Ok(200, Many(Listing.Ordered(s.rows))))
  }

  /** `POST /messages`. `elapsed` is how far the clock has moved since the last
      reading; the new row is stamped with the new reading. */
  function Create(s: Store, sender: Field, text: Field, elapsed: nat): (h: Handled)
    ensures (!RequiredString(sender) || !RequiredString(text)) <==> h.response.ValidationFail?
    ensures h.response.ValidationFail? ==> h.store == s
    ensures h.response.Ok? ==> h.response.status == 201 && h.response.body.One?
    ensures h.response.Ok? && h.response.body.One? ==>
      var m := h.response.body.message;
      && m.id == s.nextId && h.store.nextId == s.nextId + 1
      && m.sender == sender.s && m.text == text.s
      && m.createdAt == m.updatedAt == s.clock + elapsed
      && h.store.rows == s.rows[m.id := m]
      && (Valid(s) ==> m.id !in s.rows && |h.store.rows| == |s.rows| + 1 && Valid(h.store))
    ensures !h.response.NotFound?
  {
    if !RequiredString(sender) || !RequiredString(text) then
      Handled(s, ValidationFail)
    else
      var now := s.clock + elapsed;
      var m := Message(s.nextId, sender.s, text.s, now, now);
      Handled(Store(s.rows[s.nextId := m], s.nextId + 1, now), Ok(201, One(m)))
  }

  /** `PUT /messages/{id}`. `id` is `None` when the path segment names no
      row key at all (the client sends `/messages/null` when no edit is open).
      Validation runs before the lookup. Eloquent's `save` writes, and
      refreshes `updated_at`, only when the text actually changed. */
  function Update(s: Store, id: Option<Id>, text: Field, elapsed: nat): (h: Handled)
    ensures !RequiredString(text) ==> h == Handled(s, ValidationFail)
    ensures RequiredString(text) && !(id.Some? && id.value in s.rows) ==> h == Handled(s, NotFound)
    ensures RequiredString(text) && id.Some? && id.value in s.rows ==>
      h.response.Ok? && h.response.status == 200 && h.response.body.One?
    ensures RequiredString(text) && id.Some? && id.value in s.rows && h.response.Ok? && h.response.body.One? ==>
      var prior := s.rows[id.value];
      var m := h.response.body.message;
      && m.id == prior.id && m.sender == prior.sender && m.createdAt == prior.createdAt
      && m.text == text.s
      && (prior.text != text.s ==> m.updatedAt == s.clock + elapsed)
      && (prior.text == text.s ==> m == prior)
      && h.store.rows == s.rows[id.value := m]
      && (Valid(s) ==> prior.updatedAt <= m.updatedAt && Valid(h.store))
  {
    if !RequiredString(text) then
      Handled(s, ValidationFail)
    else if id.None? || id.value !in s.rows then
      Handled(s, NotFound)
    else
      var prior := s.rows[id.value];
      if prior.text == text.s then
        Handled(s, Ok(200, One(prior)))
      else
        var now := s.clock + elapsed;
        var m := prior.(text := text.s, updatedAt := now);
        Handled(s.(rows := s.rows[id.value := m], clock := now), Ok(200, One(m)))
  }

  /** `DELETE /messages/{id}`: removes the row and answers 204 with no body. */
  function Destroy(s: Store, id: Option<Id>): (h: Handled)
    ensures !(id.Some? && id.value in s.rows) ==> h == Handled(s, NotFound)
    ensures id.Some? && id.value in s.rows ==>
      && h.response == Ok(204, NoContent)
      && h.store.rows.Keys == s.rows.Keys - {id.value}
      && (forall k :: k in h.store.rows ==> h.store.rows[k] == s.rows[k])
      && h.store.nextId == s.nextId
      && (Valid(s) ==> Valid(h.store))
  {
    if id.None? || id.value !in s.rows then
      Handled(s, NotFound)
    else
      Handled(s.(rows := s.rows - {id.value}), Ok(204, NoContent))
  }
}

/** The API route table: which controller action answers which verb and path.
    The separate `/user` route behind session authentication is not part of
    this model. */
module Routes {
  import opened Wrappers
  import opened Messages
  import opened MessageController

  /** A request the client can send. `Put.target` is `None` when the path is
      `/messages/null`, i.e. no row key at all. */
  datatype Request =
    | Get                                     // GET    /messages
    | Post(sender: string, text: string)      // POST   /messages
    | Put(target: Option<Id>, text: string)   // PUT    /messages/{id}
    | Delete(id: Id)                          // DELETE /messages/{id}

  /** Hands a request to its controller action. The client always sends JSON
      strings, so each body field reaches the validator as a string. */
  function Dispatch(s: Store, req: Request, elapsed: nat): (h: Handled)
    ensures req.Get? ==> h.store == s && h.response.Ok? && h.response.status == 200
    ensures h.response.ValidationFail? ==> req.Post? || req.Put?
    ensures h.response.NotFound? ==> req.Put? || req.Delete?
    ensures h.response.Ok? ==> h.response.status == (if req.Post? then 201 else if req.Delete? then 204 else 200)
    ensures !req.Post? ==> h.store.rows.Keys <= s.rows.Keys && h.store.nextId == s.nextId
    ensures !req.Delete? ==> s.rows.Keys <= h.store.rows.Keys
  {
    match req
    case Get => Index(s)
    case Post(sender, text) => Create(s, Str(sender), Str(text), elapsed)
    case Put(target, text) => Update(s, target, Str(text), elapsed)
    case Delete(id) => Destroy(s, Some(id))
  }

  /** No call has a partial effect: a request that is not answered with
      success leaves the table exactly as it was, and a read never changes it. */
  lemma FailuresLeaveStoreUnchanged(s: Store, req: Request, elapsed: nat)
    ensures !Dispatch(s, req, elapsed).response.Ok? ==> Dispatch(s, req, elapsed).store == s
    ensures req.Get? ==> Dispatch(s, req, elapsed).store == s
    ensures Valid(s) ==> Valid(Dispatch(s, req, elapsed).store)
  {
  }
}

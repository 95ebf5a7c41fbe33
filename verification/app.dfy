/** The chat client: its local state, every handler that changes it, and the
    conditions under which the message list shows an editor or the owner's
    controls. An `await`ed request is modelled by taking its outcome as an
    input; when the request fails at the network level, the awaited promise
    rejects and nothing after the `await` runs. */
module App {
  import opened Wrappers
  import opened Whitespace
  import opened Messages
  import opened Routes

  /** The component's five pieces of state. `editId` and `editInput` form the
      single edit slot. */
  datatype ClientState = ClientState(
    messages: seq<Message>,
    input: string,
    currentUser: string,
    editId: Option<Id>,
    editInput: string)

  /** The state before the first fetch. */
  const Initial := ClientState([], "", "User 1", None, "")

  /** The identities the user selector offers. */
  const Users: seq<string> := ["User 1", "User 2"]

  /** How an awaited write ended: an HTTP answer of any status, or a
      rejected promise. */
  datatype Outcome = Responded(status: nat) | NetworkFailure

  /** How the follow-up read ended: the server's snapshot, or a rejection. */
  datatype FetchResult = Fetched(snapshot: seq<Message>) | FetchFailed

  datatype Key = Enter | Escape | OtherKey

  /** What a handler leaves behind: the new state, the request it sent (if
      any), and whether it then calls `fetchMessages`. */
  datatype Effect = Effect(state: ClientState, request: Option<Request>, refetch: bool)

  /** A handler that sends nothing and changes nothing. */
  function Nothing(c: ClientState): Effect
  {
    Effect(c, None, false)
  }

  /** `fetchMessages`: the snapshot replaces the local list wholesale, with no
      merge and no re-sort; a failed read changes nothing. */
  function FetchMessages(c: ClientState, r: FetchResult): (c': ClientState)
    ensures r.Fetched? ==> c'.messages == r.snapshot
    ensures r.FetchFailed? ==> c' == c
    ensures c'.(messages := c.messages) == c
  {
    match r
    case Fetched(snapshot) => c.(messages := snapshot)
    case FetchFailed => c
  }

  /** `sendMessage`: a blank input does nothing. Otherwise the input is
      posted untrimmed as the current user's; once any HTTP answer arrives the
      input is cleared and a refetch follows, whatever the status. A network
      failure keeps the input. */
  function SendMessage(c: ClientState, outcome: Outcome): (e: Effect)
    ensures IsJsBlank(c.input) ==> e == Nothing(c)
    ensures !IsJsBlank(c.input) ==> e.request == Some(Post(c.currentUser, c.input))
    ensures !IsJsBlank(c.input) && outcome.Responded? ==> e.state == c.(input := "") && e.refetch
    ensures outcome.NetworkFailure? ==> e.state == c && !e.refetch
  {
    if IsJsBlank(c.input) then Nothing(c)
    else
      var req := Post(c.currentUser, c.input);
      match outcome
      case NetworkFailure => Effect(c, Some(req), false)
      case Responded(_) => Effect(c.(input := ""), Some(req), true)
  }

  /** `startEdit(msg)`: the single slot takes the message's key and text,
      whatever it held before. */
  function StartEdit(c: ClientState, msg: Message): (e: Effect)
    ensures e.request.None? && !e.refetch
    ensures e.state.editId == Some(msg.id) && e.state.editInput == msg.text
    ensures e.state.(editId := c.editId, editInput := c.editInput) == c
  {
    Nothing(c.(editId := Some(msg.id), editInput := msg.text))
  }

  /** `cancelEdit`: the slot is emptied; nothing is sent. */
  function CancelEdit(c: ClientState): (e: Effect)
    ensures e.request.None? && !e.refetch
    ensures e.state.editId.None? && e.state.editInput == ""
    ensures e.state.(editId := c.editId, editInput := c.editInput) == c
  {
    Nothing(c.(editId := None, editInput := ""))
  }

  /** `saveEdit`: a blank draft does nothing. Otherwise the draft is put to
      the slot's key (`/messages/null` when the slot is empty); once any HTTP
      answer arrives the slot is emptied and a refetch follows, whatever the
      status. A network failure keeps slot and draft. */
  function SaveEdit(c: ClientState, outcome: Outcome): (e: Effect)
    ensures IsJsBlank(c.editInput) ==> e == Nothing(c)
    ensures !IsJsBlank(c.editInput) ==> e.request == Some(Put(c.editId, c.editInput))
    ensures !IsJsBlank(c.editInput) && outcome.Responded? ==>
      e.state == c.(editId := None, editInput := "") && e.refetch
    ensures outcome.NetworkFailure? ==> e.state == c && !e.refetch
  {
    if IsJsBlank(c.editInput) then Nothing(c)
    else
      var req := Put(c.editId, c.editInput);
      match outcome
      case NetworkFailure => Effect(c, Some(req), false)
      case Responded(_) => Effect(c.(editId := None, editInput := ""), Some(req), true)
  }

  /** `deleteMessage(id)`: without confirmation nothing happens; with it the
      delete is sent and, once any HTTP answer arrives, a refetch follows.
      The local state itself is never touched. */
  function DeleteMessage(c: ClientState, id: Id, confirmed: bool, outcome: Outcome): (e: Effect)
    ensures !confirmed ==> e == Nothing(c)
    ensures confirmed ==> e.request == Some(Delete(id)) && e.refetch == outcome.Responded?
    ensures e.state == c
  {
    if !confirmed then Nothing(c)
    else Effect(c, Some(Delete(id)), outcome.Responded?)
  }

  /** `handleKeyDownInput`: Enter sends; every other key is left to the
      input field. */
  function KeyDownInput(c: ClientState, key: Key, outcome: Outcome): (e: Effect)
    ensures key == Enter ==> (e.request.Some? <==> !IsJsBlank(c.input))
    ensures key == Enter && !IsJsBlank(c.input) ==>
      && e.request == Some(Post(c.currentUser, c.input))
      && e.refetch == outcome.Responded?
      && e.state == (if outcome.Responded? then c.(input := "") else c)
    ensures key != Enter || IsJsBlank(c.input) ==> e.state == c && e.request.None? && !e.refetch
  {
    if key == Enter then SendMessage(c, outcome) else Nothing(c)
  }

  /** `handleKeyDownEdit`: Enter saves, Escape cancels, any other key does
      nothing. */
  function KeyDownEdit(c: ClientState, key: Key, outcome: Outcome): (e: Effect)
    ensures key == Enter ==> (e.request.Some? <==> !IsJsBlank(c.editInput))
    ensures key == Enter && !IsJsBlank(c.editInput) ==>
      && e.request == Some(Put(c.editId, c.editInput))
      && e.refetch == outcome.Responded?
      && e.state == (if outcome.Responded? then c.(editId := None, editInput := "") else c)
    ensures key == Enter && IsJsBlank(c.editInput) ==> e.state == c && e.request.None? && !e.refetch
    ensures key == Escape ==> e.state == c.(editId := None, editInput := "") && e.request.None? && !e.refetch
    ensures key == OtherKey ==> e.state == c && e.request.None? && !e.refetch
  {
    match key
    case Enter => SaveEdit(c, outcome)
    case Escape => CancelEdit(c)
    case OtherKey => Nothing(c)
  }

  /** The user's gestures. `Delete` carries the answer to the confirmation
      dialog. */
  datatype Action =
    | Send
    | KeyInput(key: Key)
    | TypeInput(text: string)
    | SelectUser(user: string)
    | BeginEdit(msg: Message)
    | Cancel
    | Save
    | KeyEdit(key: Key)
    | TypeEdit(draft: string)
    | Remove(target: Id, confirmed: bool)

  /** One gesture and its handler. Typing and selecting a user are the
      inputs' `onChange` setters. */
  function Step(c: ClientState, a: Action, outcome: Outcome): (e: Effect)
    ensures a.TypeInput? ==>
      && e.state.input == a.text && e.state.(input := c.input) == c
      && e.request.None? && !e.refetch
    ensures a.SelectUser? ==>
      && e.state.currentUser == a.user && e.state.(currentUser := c.currentUser) == c
      && e.request.None? && !e.refetch
    ensures a.TypeEdit? ==>
      && e.state.editInput == a.draft && e.state.(editInput := c.editInput) == c
      && e.request.None? && !e.refetch
    ensures a.BeginEdit? || a.Cancel? ==> e.request.None? && !e.refetch
    ensures e.request.Some? ==> a.Send? || a.KeyInput? || a.Save? || a.KeyEdit? || a.Remove?
    ensures e.refetch ==> e.request.Some? && outcome.Responded?
    ensures e.state.messages == c.messages
  {
    match a
    case Send => SendMessage(c, outcome)
    case KeyInput(key) => KeyDownInput(c, key, outcome)
    case TypeInput(text) => Nothing(c.(input := text))
    case SelectUser(user) => Nothing(c.(currentUser := user))
    case BeginEdit(msg) => StartEdit(c, msg)
    case Cancel => CancelEdit(c)
    case Save => SaveEdit(c, outcome)
    case KeyEdit(key) => KeyDownEdit(c, key, outcome)
    case TypeEdit(draft) => Nothing(c.(editInput := draft))
    case Remove(target, confirmed) => DeleteMessage(c, target, confirmed, outcome)
  }

  /** `msg` is rendered as an editor rather than as text. */
  predicate EditorShown(c: ClientState, msg: Message)
  {
    c.editId == Some(msg.id)
  }

  /** `msg` is rendered with its edit and delete buttons. */
  predicate OwnerControlsShown(c: ClientState, msg: Message)
  {
    !EditorShown(c, msg) && msg.sender == c.currentUser
  }

  /** Some rendered message shows the editor, so its input, Save and Cancel
      exist. */
  predicate EditorOpen(c: ClientState)
  {
    exists i :: 0 <= i < |c.messages| && EditorShown(c, c.messages[i])
  }

  /** The gesture is available on screen: the composer and the user selector
      always are; edit and delete buttons only on rendered messages showing
      the owner's controls; editor gestures only while an editor is rendered. */
  predicate Enabled(c: ClientState, a: Action)
  {
    match a
    case Send => true
    case KeyInput(_) => true
    case TypeInput(_) => true
    case SelectUser(user) => user in Users
    case BeginEdit(msg) => msg in c.messages && OwnerControlsShown(c, msg)
    case Remove(target, _) =>
      exists i :: 0 <= i < |c.messages| && c.messages[i].id == target && OwnerControlsShown(c, c.messages[i])
    case Cancel => EditorOpen(c)
    case Save => EditorOpen(c)
    case KeyEdit(_) => EditorOpen(c)
    case TypeEdit(_) => EditorOpen(c)
  }

  /** No two rendered messages share a key. */
  predicate DistinctIds(ms: seq<Message>)
  {
    forall i, j :: 0 <= i < j < |ms| ==> ms[i].id != ms[j].id
  }

  /** The slot's draft is empty whenever no edit is open. */
  predicate SlotConsistent(c: ClientState)
  {
    c.editId.None? ==> c.editInput == ""
  }
}

/** Properties of the client handlers taken together: what the outcome of a
    request can and cannot influence, the single edit slot, and the
    rendering conditions. */
module AppLaws {
  import opened Wrappers
  import opened Whitespace
  import opened Messages
  import opened Routes
  import opened App

  /** Sending does nothing exactly when `input.trim() === ""`; otherwise the
      untrimmed input is posted. */
  lemma SendBlankIffNoRequest(c: ClientState, outcome: Outcome)
    ensures JsTrim(c.input) == "" <==> SendMessage(c, outcome) == Nothing(c)
    ensures JsTrim(c.input) != "" ==> SendMessage(c, outcome).request == Some(Post(c.currentUser, c.input))
  {
    BlankIffTrimEmpty(c.input);
  }

  /** Saving does nothing exactly when `editInput.trim() === ""`: slot and
      draft stay, nothing is sent. */
  lemma SaveBlankIffNoRequest(c: ClientState, outcome: Outcome)
    ensures JsTrim(c.editInput) == "" <==> SaveEdit(c, outcome) == Nothing(c)
    ensures JsTrim(c.editInput) != "" ==> SaveEdit(c, outcome).request == Some(Put(c.editId, c.editInput))
  {
    BlankIffTrimEmpty(c.editInput);
  }

  /** The request a gesture sends is decided before the `await`: it does not
      depend on how the request ends. */
  lemma RequestIgnoresOutcome(c: ClientState, a: Action, o1: Outcome, o2: Outcome)
    ensures Step(c, a, o1).request == Step(c, a, o2).request
  {
  }

  /** No handler inspects the HTTP status: any two answers have the same
      effect. */
  lemma StatusNotInspected(c: ClientState, a: Action, s1: nat, s2: nat)
    ensures Step(c, a, Responded(s1)) == Step(c, a, Responded(s2))
  {
  }

  /** A gesture that sends nothing never refetches and its effect does not
      depend on any outcome. */
  lemma NoRequestNoOutcome(c: ClientState, a: Action, o1: Outcome, o2: Outcome)
    requires Step(c, a, o1).request.None?
    ensures Step(c, a, o1) == Step(c, a, o2) && !Step(c, a, o1).refetch
  {
  }

  /** Every write that gets an HTTP answer is followed by a refetch; one that
      fails at the network level is not, and leaves the state as it was. */
  lemma AnsweredWritesRefetch(c: ClientState, a: Action, o: Outcome)
    requires Step(c, a, o).request.Some?
    ensures o.Responded? ==> Step(c, a, o).refetch
    ensures o.NetworkFailure? ==> Step(c, a, o) == Effect(c, Step(c, a, o).request, false)
  {
  }

  /** Only `fetchMessages` changes the local list; no handler edits it. */
  lemma StepKeepsMessages(c: ClientState, a: Action, o: Outcome)
    ensures Step(c, a, o).state.messages == c.messages
  {
  }

  /** Starting an edit on another message overwrites the slot: the previous
      draft is discarded, nothing is sent for it. */
  lemma StartEditOverwrites(c: ClientState, first: Message, second: Message)
    ensures StartEdit(StartEdit(c, first).state, second) == StartEdit(c, second)
  {
  }

  /** Cancelling undoes a started edit completely, and cancelling twice is
      the same as cancelling once. */
  lemma CancelUndoesStart(c: ClientState, msg: Message)
    ensures CancelEdit(StartEdit(c, msg).state) == CancelEdit(c)
    ensures CancelEdit(CancelEdit(c).state) == CancelEdit(c)
  {
  }

  /** When rendered keys are distinct, at most one message shows the editor. */
  lemma AtMostOneEditor(c: ClientState)
    requires DistinctIds(c.messages)
    ensures forall i, j ::
      (0 <= i < |c.messages| && 0 <= j < |c.messages| &&
       EditorShown(c, c.messages[i]) && EditorShown(c, c.messages[j])) ==> i == j
  {
  }

  /** Edit and delete are offered only on the current user's messages that
      are not being edited. This spells out, for a reader, what `Enabled` and
      `OwnerControlsShown` already say by definition. */
  lemma ControlsOnlyOnOwnMessages(c: ClientState, a: Action)
    requires Enabled(c, a)
    ensures a.BeginEdit? ==> a.msg.sender == c.currentUser && c.editId != Some(a.msg.id)
    ensures a.Remove? ==>
      (exists i :: 0 <= i < |c.messages| && c.messages[i].id == a.target &&
                   c.messages[i].sender == c.currentUser && c.editId != Some(a.target))
  {
  }

  /** Through the interface, a save always targets a real key: the editor is
      rendered only while the slot holds one. */
  lemma SaveTargetsOpenSlot(c: ClientState, a: Action, o: Outcome)
    requires Enabled(c, a) && (a.Save? || a.KeyEdit?)
    requires Step(c, a, o).request.Some?
    ensures Step(c, a, o).request.value == Put(c.editId, c.editInput) && c.editId.Some?
  {
  }

  /** Every available gesture, whatever its outcome, and every fetch keep the
      draft empty while no edit is open. */
  lemma SlotConsistentPreserved(c: ClientState, a: Action, o: Outcome, r: FetchResult)
    requires SlotConsistent(c) && Enabled(c, a)
    ensures SlotConsistent(Step(c, a, o).state)
    ensures SlotConsistent(FetchMessages(c, r))
  {
  }
}

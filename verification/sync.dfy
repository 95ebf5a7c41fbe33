/** One client talking to the server, one gesture at a time: the request a
    gesture sends is handled by the controller, the client sees the answer,
    and the follow-up `fetchMessages` reads the listing. The property that
    ties the two halves together is that after a write and its refetch the
    client shows exactly the server's listing, in the server's order. */
module Sync {
  import opened Wrappers
  import opened Whitespace
  import opened Messages
  import opened MessageController
  import opened Routes
  import opened App
  import AppLaws
  import StoreLaws
  import Listing

  datatype World = World(client: ClientState, store: Store)

  /** How the network treats one gesture: whether its write reaches the
      server and is answered, whether the follow-up read succeeds, and how far
      the server's clock moves before the write is handled. */
  datatype Network = Network(writeOk: bool, refetchOk: bool, elapsed: nat)

  /** The server's listing. */
  function Snapshot(s: Store): seq<Message>
  {
    Index(s).response.body.messages
  }

  /** The client shows exactly what the server would list. */
  predicate InSync(w: World)
  {
    w.client.messages == Snapshot(w.store)
  }

  /** One gesture carried through: the request (if any) is handled by the
      server, the handler sees the answer, and a requested refetch reads the
      listing of the table as it now is. */
  function Interact(w: World, a: Action, net: Network): World
  {
    var request := Step(w.client, a, NetworkFailure).request;
    if request.None? || !net.writeOk then
      World(Step(w.client, a, NetworkFailure).state, w.store)
    else
      var h := Dispatch(w.store, request.value, net.elapsed);
      var e := Step(w.client, a, Responded(StatusCode(h.response)));
      var read := if net.refetchOk then Fetched(Snapshot(h.store)) else FetchFailed;
      World(if e.refetch then FetchMessages(e.state, read) else e.state, h.store)
  }

  /** The linking property: a write that is answered and followed by a
      successful refetch leaves the client showing exactly the server's
      listing, whatever the client showed before. */
  lemma WriteThenFetchSyncs(w: World, a: Action, net: Network)
    requires Step(w.client, a, NetworkFailure).request.Some?
    requires net.writeOk && net.refetchOk
    ensures InSync(Interact(w, a, net))
  {
    var request := Step(w.client, a, NetworkFailure).request;
    var h := Dispatch(w.store, request.value, net.elapsed);
    var o := Responded(StatusCode(h.response));
    AppLaws.RequestIgnoresOutcome(w.client, a, NetworkFailure, o);
    AppLaws.AnsweredWritesRefetch(w.client, a, o);
  }

  /** A gesture that sends nothing, or whose write is lost, changes neither
      the table nor the client's list. */
  lemma UnsentLeavesBothAlone(w: World, a: Action, net: Network)
    requires Step(w.client, a, NetworkFailure).request.None? || !net.writeOk
    ensures Interact(w, a, net).store == w.store
    ensures Interact(w, a, net).client.messages == w.client.messages
  {
    AppLaws.StepKeepsMessages(w.client, a, NetworkFailure);
  }

  /** Once in step, a single client stays in step through any gesture whose
      refetch succeeds. */
  lemma InteractKeepsSync(w: World, a: Action, net: Network)
    requires InSync(w) && net.refetchOk
    ensures InSync(Interact(w, a, net))
  {
    if Step(w.client, a, NetworkFailure).request.Some? && net.writeOk {
      WriteThenFetchSyncs(w, a, net);
    } else {
      UnsentLeavesBothAlone(w, a, net);
    }
  }

  /** Every gesture keeps the table well-formed. */
  lemma InteractKeepsValid(w: World, a: Action, net: Network)
    requires Valid(w.store)
    ensures Valid(Interact(w, a, net).store)
  {
    var request := Step(w.client, a, NetworkFailure).request;
    if request.Some? && net.writeOk {
      FailuresLeaveStoreUnchanged(w.store, request.value, net.elapsed);
    }
  }

  /** A session: gestures in order, each with its own network conditions. */
  function Run(w: World, steps: seq<(Action, Network)>): World
    decreases |steps|
  {
    if |steps| == 0 then w
    else Run(Interact(w, steps[0].0, steps[0].1), steps[1..])
  }

  /** The mount-time fetch, against whatever the table holds. */
  function Startup(s: Store): World
  {
    World(FetchMessages(Initial, Fetched(Snapshot(s))), s)
  }

  /** After a successful mount-time fetch, a lone client whose refetches all
      succeed always shows the server's listing, and the table stays
      well-formed throughout. */
  lemma {:induction false} SessionStaysInSync(w: World, steps: seq<(Action, Network)>)
    requires InSync(w) && Valid(w.store)
    requires forall i :: 0 <= i < |steps| ==> steps[i].1.refetchOk
    ensures InSync(Run(w, steps)) && Valid(Run(w, steps).store)
    decreases |steps|
  {
    if |steps| > 0 {
      InteractKeepsSync(w, steps[0].0, steps[0].1);
      InteractKeepsValid(w, steps[0].0, steps[0].1);
      SessionStaysInSync(Interact(w, steps[0].0, steps[0].1), steps[1..]);
    }
  }

  /** The mount-time fetch starts the client in step. */
  lemma StartupInSync(s: Store)
    ensures InSync(Startup(s))
    ensures Startup(s).client.(messages := []) == Initial
  {
  }

  /** A client in step with a well-formed table renders at most one editor,
      the one whose key is in the slot. */
  lemma SyncedClientHasOneEditor(w: World)
    requires InSync(w) && Valid(w.store)
    ensures forall i, j ::
      (0 <= i < |w.client.messages| && 0 <= j < |w.client.messages| &&
       EditorShown(w.client, w.client.messages[i]) && EditorShown(w.client, w.client.messages[j])) ==> i == j
  {
    StoreLaws.ListingExactlyOnce(w.store);
    AppLaws.AtMostOneEditor(w.client);
  }

  /** Starting an edit on one message and then on another sends nothing,
      leaves the table (and so the first message's stored text) untouched,
      and leaves only the second message in the slot. */
  lemma SwitchingEditsDiscardsDraft(w: World, first: Message, second: Message, n1: Network, n2: Network)
    ensures var w' := Interact(Interact(w, BeginEdit(first), n1), BeginEdit(second), n2);
      && w'.store == w.store
      && w'.client == StartEdit(w.client, second).state
  {
  }

  /** The client's and the server's blank tests differ: an input of one NUL
      character is sent, the server's validation rejects it, and once that
      rejection arrives as an HTTP answer the client clears the input and
      refetches anyway, leaving the table unchanged. */
  lemma RejectedSendStillClearsInput(w: World, net: Network)
    requires w.client.input == "\U{0000}" && net.writeOk
    ensures Dispatch(w.store, Post(w.client.currentUser, "\U{0000}"), net.elapsed).response == ValidationFail
    ensures Interact(w, Send, net).store == w.store
    ensures Interact(w, Send, net).client.input == ""
  {
    assert IsPhpWhitespace("\U{0000}"[0]) && !IsJsWhitespace("\U{0000}"[0]);
  }
}

/** Properties that relate several controller calls: the table invariant,
    finality of deletion, key freshness, and what a listing shows after each
    kind of write. */
module StoreLaws {
  import opened Wrappers
  import opened Whitespace
  import opened Messages
  import opened MessageController
  import Listing
  import opened Routes

  /** The empty table is well-formed. */
  lemma EmptyStoreValid()
    ensures Valid(EmptyStore) && |Index(EmptyStore).response.body.messages| == 0
  {
  }

  /** Every action keeps the table well-formed. */
  lemma ActionsPreserveValid(s: Store, id: Option<Id>, sender: Field, text: Field, elapsed: nat)
    requires Valid(s)
    ensures Valid(Index(s).store)
    ensures Valid(Create(s, sender, text, elapsed).store)
    ensures Valid(Update(s, id, text, elapsed).store)
    ensures Valid(Destroy(s, id).store)
  {
  }

  /** On a well-formed table the listing is duplicate-free and every entry is
      the current row under its own key: each row appears exactly once. */
  lemma ListingExactlyOnce(s: Store)
    requires Valid(s)
    ensures var snap := Index(s).response.body.messages;
      && Listing.EachRowOnce(snap, s.rows)
      && (forall k :: k in s.rows <==> exists i :: 0 <= i < |snap| && snap[i].id == k)
  {
    var snap := Index(s).response.body.messages;
    assert Listing.KeyedById(s.rows) by {
      forall k | k in s.rows
        ensures s.rows[k].id == k
      {
        assert RowValid(s, k);
      }
    }
    forall k | k in s.rows
      ensures exists i :: 0 <= i < |snap| && snap[i].id == k
    {
      var i :| 0 <= i < |snap| && snap[i] == s.rows[k];
    }
  }

  /** After a successful delete, the same key is gone for good: a second
      delete and any valid update of it fail with not-found, while an update
      with a bad text still fails validation first. */
  lemma DestroyIsFinal(s: Store, id: Id, text: Field, elapsed: nat)
    requires Destroy(s, Some(id)).response.Ok?
    ensures var t := Destroy(s, Some(id)).store;
      && Destroy(t, Some(id)) == Handled(t, NotFound)
      && (RequiredString(text) ==> Update(t, Some(id), text, elapsed) == Handled(t, NotFound))
      && (!RequiredString(text) ==> Update(t, Some(id), text, elapsed) == Handled(t, ValidationFail))
  {
  }

  /** The auto-increment counter never hands out a deleted key again: no
      later history of requests, whatever mix of reads, creates, updates and
      deletes, brings a row back under that key. */
  lemma {:induction false} DeletedKeyNeverReused(s: Store, id: Id, history: seq<(Request, nat)>)
    requires Valid(s) && Destroy(s, Some(id)).response.Ok?
    ensures id !in DispatchAll(Destroy(s, Some(id)).store, history).rows
    ensures DispatchAll(Destroy(s, Some(id)).store, history).nextId > id
  {
    assert RowValid(s, id);
    DispatchAllKeepsKeysBelow(Destroy(s, Some(id)).store, history, id);
  }

  /** Applies a history of requests in order, each with the time that has
      passed before it. */
  function DispatchAll(s: Store, history: seq<(Request, nat)>): Store
    decreases |history|
  {
    if |history| == 0 then s
    else DispatchAll(Dispatch(s, history[0].0, history[0].1).store, history[1..])
  }

  /** A key below the counter that is not in the table stays absent and below
      the counter through any history. */
  lemma {:induction false} DispatchAllKeepsKeysBelow(s: Store, history: seq<(Request, nat)>, id: Id)
    requires id !in s.rows && id < s.nextId
    ensures id !in DispatchAll(s, history).rows && id < DispatchAll(s, history).nextId
    decreases |history|
  {
    if |history| > 0 {
      DispatchAllKeepsKeysBelow(Dispatch(s, history[0].0, history[0].1).store, history[1..], id);
    }
  }

  /** Updating twice with the same text is idempotent on the value: the
      second call answers the row the first one wrote and changes nothing. */
  lemma UpdateTwiceSameText(s: Store, id: Id, text: Field, e1: nat, e2: nat)
    requires Update(s, Some(id), text, e1).response.Ok?
    ensures var first := Update(s, Some(id), text, e1);
      Update(first.store, Some(id), text, e2) == first
  {
  }

  /** Sending a valid message to an empty table lists exactly that message,
      under the counter's key, with equal timestamps. */
  lemma SendThenList(s: Store, sender: string, text: string, elapsed: nat)
    requires s.rows == map[]
    requires RequiredString(Str(sender)) && RequiredString(Str(text))
    ensures var created := Create(s, Str(sender), Str(text), elapsed).store;
      var now := s.clock + elapsed;
      Index(created).response.body.messages == [Message(s.nextId, sender, text, now, now)]
  {
    var now := s.clock + elapsed;
    var m := Message(s.nextId, sender, text, now, now);
    assert Create(s, Str(sender), Str(text), elapsed).store.rows == map[s.nextId := m];
    SingletonListing(s.nextId, m);
  }

  /** A table of one row lists just that row. */
  lemma SingletonListing(k: Id, m: Message)
    ensures Listing.Ordered(map[k := m]) == [m]
  {
    var snap := Listing.Ordered(map[k := m]);
    assert |map[k := m]| == 1;
    assert m in snap;
  }

  /** Alice says "hi" in an empty table: both fields pass `required|string`,
      and the listing shows exactly her message under the counter's key. */
  lemma AliceSaysHi(s: Store, elapsed: nat)
    requires s.rows == map[]
    ensures var created := Create(s, Str("Alice"), Str("hi"), elapsed).store;
      var now := s.clock + elapsed;
      Index(created).response.body.messages == [Message(s.nextId, "Alice", "hi", now, now)]
  {
    assert !IsPhpWhitespace("Alice"[0]) && !IsPhpWhitespace("hi"[0]);
    SendThenList(s, "Alice", "hi", elapsed);
  }

  /** Editing a message to a different text lists it under the same key with
      the new text and, once the clock has moved, a later `updated_at`. */
  lemma EditThenList(s: Store, id: Id, text: string, elapsed: nat)
    requires Valid(s) && id in s.rows && s.rows[id].text != text
    requires !IsPhpBlank(text) && elapsed > 0
    ensures var snap := Index(Update(s, Some(id), Str(text), elapsed).store).response.body.messages;
      exists i :: 0 <= i < |snap| && snap[i].id == id && snap[i].text == text &&
                  snap[i].updatedAt > snap[i].createdAt
  {
    assert RowValid(s, id);
    var h := Update(s, Some(id), Str(text), elapsed);
    var m := h.response.body.message;
    var t := h.store;
    assert m.text == text && m.updatedAt > m.createdAt;
    assert id in t.rows && t.rows[id] == m;
    var snap := Index(t).response.body.messages;
    assert m in snap;
    var i :| 0 <= i < |snap| && snap[i] == m;
  }

  /** Deleting a message takes it out of every later listing, and a second
      delete fails with not-found. */
  lemma DeleteThenList(s: Store, id: Id)
    requires Valid(s) && id in s.rows
    ensures var t := Destroy(s, Some(id)).store;
      && (forall i :: 0 <= i < |Index(t).response.body.messages| ==> Index(t).response.body.messages[i].id != id)
      && Destroy(t, Some(id)).response == NotFound
  {
    var t := Destroy(s, Some(id)).store;
    assert Valid(t);
    ListingExactlyOnce(t);
  }
}

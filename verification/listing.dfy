/** The order in which `orderBy('created_at')->get()` enumerates the table.
    The query fixes only non-decreasing `created_at`; among rows with equal
    timestamps the database may return any order, and this model picks key
    order as one admissible choice. */
module Listing {
  import opened Messages

  /** Row `k` may be listed before row `j`. */
  predicate ListedBefore(rows: map<Id, Message>, k: Id, j: Id)
    requires k in rows && j in rows
  {
    || rows[k].createdAt < rows[j].createdAt
    || (rows[k].createdAt == rows[j].createdAt && k <= j)
  }

  /** What the query promises of a result `snap` over `rows`: every row exactly
      once (counted by key) and nothing else, in non-decreasing `created_at`. */
  predicate IsListing(snap: seq<Message>, rows: map<Id, Message>)
  {
    && |snap| == |rows|
    && (forall i :: 0 <= i < |snap| ==> snap[i] in rows.Values)
    && (forall k :: k in rows ==> rows[k] in snap)
    && (forall i, j :: 0 <= i < j < |snap| ==> snap[i].createdAt <= snap[j].createdAt)
  }

  lemma ListedBeforeTransitive(rows: map<Id, Message>, a: Id, b: Id, c: Id)
    requires a in rows && b in rows && c in rows
    requires ListedBefore(rows, a, b) && ListedBefore(rows, b, c)
    ensures ListedBefore(rows, a, c)
  {
  }

  /** Each row is stored under its own `id`, as the table's primary key. */
  predicate KeyedById(rows: map<Id, Message>)
  {
    forall k :: k in rows ==> rows[k].id == k
  }

  /** Each entry of `snap` is the row stored under its `id`, and no `id` repeats. */
  predicate EachRowOnce(snap: seq<Message>, rows: map<Id, Message>)
  {
    && (forall i :: 0 <= i < |snap| ==> snap[i].id in rows && rows[snap[i].id] == snap[i])
    && (forall i, j :: 0 <= i < j < |snap| ==> snap[i].id != snap[j].id)
  }

  /** Some key of `keys` is listed before every key of `keys`. */
  lemma {:induction false} FirstKeyExists(rows: map<Id, Message>, keys: set<Id>)
    requires keys != {} && keys <= rows.Keys
    ensures exists k :: k in keys && forall j :: j in keys ==> ListedBefore(rows, k, j)
  {
    var x :| x in keys;
    if keys != {x} {
      FirstKeyExists(rows, keys - {x});
      var k :| k in keys - {x} && forall j :: j in keys - {x} ==> ListedBefore(rows, k, j);
      if ListedBefore(rows, k, x) {
        assert forall j :: j in keys ==> ListedBefore(rows, k, j);
      } else {
        forall j | j in keys
          ensures ListedBefore(rows, x, j)
        {
          if j != x {
            ListedBeforeTransitive(rows, x, k, j);
          }
        }
      }
    } else {
      assert forall j :: j in keys ==> j == x;
    }
  }

  /** The key of `keys` the query returns first. */
  function FirstKey(rows: map<Id, Message>, keys: set<Id>): (k: Id)
    requires keys != {} && keys <= rows.Keys
    ensures k in keys
    ensures forall j :: j in keys ==> ListedBefore(rows, k, j)
  {
    FirstKeyExists(rows, keys);
    var k :| k in keys && forall j :: j in keys ==> ListedBefore(rows, k, j);
    k
  }

  /** The keys of `keys` in listing order. */
  function OrderedKeys(rows: map<Id, Message>, keys: set<Id>): (ks: seq<Id>)
    requires keys <= rows.Keys
    ensures |ks| == |keys|
    ensures forall i :: 0 <= i < |ks| ==> ks[i] in keys
    ensures forall k :: k in keys ==> k in ks
    ensures forall i, j :: 0 <= i < j < |ks| ==> ks[i] != ks[j]
    ensures forall i, j :: 0 <= i < j < |ks| ==> ListedBefore(rows, ks[i], ks[j])
    decreases keys
  {
    if keys == {} then []
    else
      var k := FirstKey(rows, keys);
      [k] + OrderedKeys(rows, keys - {k})
  }

  /** The rows in listing order. */
  function Ordered(rows: map<Id, Message>): (snap: seq<Message>)
    ensures IsListing(snap, rows)
    ensures KeyedById(rows) ==> EachRowOnce(snap, rows)
  {
    var keys := OrderedKeys(rows, rows.Keys);
    var snap := seq(|keys|, i requires 0 <= i < |keys| => rows[keys[i]]);
    OrderedIsListing(rows, keys, snap);
    snap
  }

  lemma OrderedIsListing(rows: map<Id, Message>, keys: seq<Id>, snap: seq<Message>)
    requires |keys| == |rows.Keys|
    requires forall i :: 0 <= i < |keys| ==> keys[i] in rows
    requires forall k :: k in rows ==> k in keys
    requires forall i, j :: 0 <= i < j < |keys| ==> ListedBefore(rows, keys[i], keys[j])
    requires forall i, j :: 0 <= i < j < |keys| ==> keys[i] != keys[j]
    requires |snap| == |keys| && forall i :: 0 <= i < |keys| ==> snap[i] == rows[keys[i]]
    ensures IsListing(snap, rows)
    ensures KeyedById(rows) ==> EachRowOnce(snap, rows)
  {
    assert |rows| == |rows.Keys|;
    forall i | 0 <= i < |snap|
      ensures snap[i] in rows.Values
    {
      assert keys[i] in rows;
    }
    forall k | k in rows
      ensures rows[k] in snap
    {
      var i :| 0 <= i < |keys| && keys[i] == k;
      assert snap[i] == rows[k];
    }
    forall i, j | 0 <= i < j < |snap|
      ensures snap[i].createdAt <= snap[j].createdAt
    {
      assert ListedBefore(rows, keys[i], keys[j]);
    }
    if KeyedById(rows) {
      forall i | 0 <= i < |snap|
        ensures snap[i].id == keys[i]
      {
        assert keys[i] in rows;
      }
    }
  }
}

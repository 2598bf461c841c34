/**
 * Turning the ids buscar ranks back into records: obtener_usuario_por_id and
 * obtener_alias_por_id (main.py:170-174) scan the snapshot for the first
 * record with the id, and the endpoints (main.py:196-199, 221-224) append
 * each record found, in ranking order, dropping ids with no record.
 */
module Resolver {
  import opened Wrappers
  import opened Search

  /** `next((r for r in records if r["id"] == id), None)`. */
  function FirstWithId<R>(records: seq<R>, idOf: R -> int, id: int): (r: Option<R>)
    ensures r.None? <==> forall k :: 0 <= k < |records| ==> idOf(records[k]) != id
    ensures r.Some? ==> exists k :: 0 <= k < |records| && records[k] == r.value && FirstIndexOf(records, idOf, id, k)
  {
    if records == [] then None
    else if idOf(records[0]) == id then
      assert FirstIndexOf(records, idOf, id, 0);
      Some(records[0])
    else
      var r := FirstWithId(records[1..], idOf, id);
      assert r.Some? ==> exists k :: 0 <= k < |records| && records[k] == r.value && FirstIndexOf(records, idOf, id, k) by {
        if r.Some? {
          var k :| 0 <= k < |records[1..]| && records[1..][k] == r.value && FirstIndexOf(records[1..], idOf, id, k);
          assert FirstIndexOf(records, idOf, id, k + 1);
        }
      }
      r
  }

  /** k is the first position of records holding id. */
  ghost predicate FirstIndexOf<R>(records: seq<R>, idOf: R -> int, id: int, k: int)
  {
    && 0 <= k < |records|
    && idOf(records[k]) == id
    && forall j :: 0 <= j < k ==> idOf(records[j]) != id
  }

  /** Some record carries id. */
  ghost predicate HasId<R>(records: seq<R>, idOf: R -> int, id: int)
  {
    exists j :: 0 <= j < |records| && idOf(records[j]) == id
  }

  /** The records found for a ranking, in ranking order; ids with no record are skipped. */
  function Resolved<R>(records: seq<R>, idOf: R -> int, ranked: seq<Scored>): (r: seq<R>)
    ensures |r| <= |ranked|
    ensures forall k :: 0 <= k < |r| ==> r[k] in records
  {
    if ranked == [] then []
    else
      var rest := Resolved(records, idOf, ranked[..|ranked| - 1]);
      match FirstWithId(records, idOf, ranked[|ranked| - 1].0)
      case Some(r) => rest + [r]
      case None => rest
  }

  /**
   * The endpoints' resolve loop: for each ranked id, look the record up and
   * append it if there is one.
   */
  method ResolveRanked<R>(records: seq<R>, idOf: R -> int, ranked: seq<Scored>) returns (data: seq<R>)
    ensures data == Resolved(records, idOf, ranked)
    ensures |data| <= |ranked|
    ensures forall k :: 0 <= k < |data| ==> data[k] in records
  {
    data := [];
    var i := 0;
    while i < |ranked|
      invariant 0 <= i <= |ranked|
      invariant data == Resolved(records, idOf, ranked[..i])
      invariant |data| <= i
      invariant forall k :: 0 <= k < |data| ==> data[k] in records
    {
      assert ranked[..i + 1][..i] == ranked[..i];
      var (id, _) := ranked[i];
      var found := FirstWithId(records, idOf, id);
      if found.Some? {
        data := data + [found.value];
      }
      i := i + 1;
    }
    assert ranked[..i] == ranked;
  }

  /** Every id that some record carries resolves: then nothing is dropped and order follows the ranking. */
  lemma {:induction false} ResolvedKeepsKnownIds<R>(records: seq<R>, idOf: R -> int, ranked: seq<Scored>)
    requires forall k :: 0 <= k < |ranked| ==> HasId(records, idOf, ranked[k].0)
    ensures |Resolved(records, idOf, ranked)| == |ranked|
    ensures forall k :: 0 <= k < |ranked| ==>
              Some(Resolved(records, idOf, ranked)[k]) == FirstWithId(records, idOf, ranked[k].0)
  {
    if ranked != [] {
      var init := ranked[..|ranked| - 1];
      assert forall k :: 0 <= k < |init| ==> init[k] == ranked[k];
      ResolvedKeepsKnownIds(records, idOf, init);
      var last := ranked[|ranked| - 1];
      assert HasId(records, idOf, last.0);
      var found := FirstWithId(records, idOf, last.0);
      assert found.Some?;
      assert Resolved(records, idOf, ranked) == Resolved(records, idOf, init) + [found.value];
    }
  }

  /** A resolved entry is the first record carrying some ranked id. */
  /** Resolving a ranking piece by piece gives the same list: the loop keeps ranking order. */
  lemma {:induction false} ResolvedAppend<R>(records: seq<R>, idOf: R -> int, a: seq<Scored>, b: seq<Scored>)
    ensures Resolved(records, idOf, a + b) == Resolved(records, idOf, a) + Resolved(records, idOf, b)
    decreases |b|
  {
    if b == [] {
      assert a + b == a;
    } else {
      var init := b[..|b| - 1];
      ResolvedAppend(records, idOf, a, init);
      assert (a + b)[..|a + b| - 1] == a + init;
      assert (a + b)[|a + b| - 1] == b[|b| - 1];
      match FirstWithId(records, idOf, b[|b| - 1].0)
      case Some(r) =>
        calc {
          Resolved(records, idOf, a + b);
          Resolved(records, idOf, a + init) + [r];
          (Resolved(records, idOf, a) + Resolved(records, idOf, init)) + [r];
          Resolved(records, idOf, a) + (Resolved(records, idOf, init) + [r]);
        }
      case None =>
    }
  }

  /** A single ranked id resolves to its first record, or to nothing when no record has it. */
  lemma ResolvedSingle<R>(records: seq<R>, idOf: R -> int, x: Scored)
    ensures Resolved(records, idOf, [x]) ==
            (if exists k :: 0 <= k < |records| && idOf(records[k]) == x.0
             then [FirstWithId(records, idOf, x.0).value] else [])
  {
  }

  lemma {:induction false} ResolvedAreFirstMatches<R>(records: seq<R>, idOf: R -> int, ranked: seq<Scored>, x: R)
    requires x in Resolved(records, idOf, ranked)
    ensures exists k :: 0 <= k < |ranked| && FirstWithId(records, idOf, ranked[k].0) == Some(x)
  {
    var init := ranked[..|ranked| - 1];
    var last := |ranked| - 1;
    if x in Resolved(records, idOf, init) {
      ResolvedAreFirstMatches(records, idOf, init, x);
      var k :| 0 <= k < |init| && FirstWithId(records, idOf, init[k].0) == Some(x);
      assert ranked[k] == init[k];
    } else {
      assert FirstWithId(records, idOf, ranked[last].0) == Some(x);
    }
  }
}

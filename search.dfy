/**
 * buscar (main.py:108-117): the semantic search over one index. The vector
 * index itself is opaque; what it hands back for a query is a ranking of
 * (position, score) pairs. buscar keeps the pairs that reach the threshold,
 * maps each position to its record id, and sorts by descending score with
 * Python's stable sort.
 */
module Search {

  /** One entry of the index's answer: a corpus position and its similarity score. */
  type Hit = (nat, real)

  /** One entry of buscar's answer: a record id and its similarity score. */
  type Scored = (int, real)

  /** Every position the index names is a position of the id map. */
  predicate ValidRanking(idMap: map<nat, int>, ranked: seq<Hit>)
  {
    forall k :: 0 <= k < |ranked| ==> ranked[k].0 in idMap
  }

  /** The hits that reach the threshold, as (id, score), in ranking order. */
  function Kept(idMap: map<nat, int>, ranked: seq<Hit>, threshold: real): (r: seq<Scored>)
    requires ValidRanking(idMap, ranked)
    ensures |r| <= |ranked|
    ensures forall k :: 0 <= k < |r| ==> r[k].1 >= threshold
  {
    if ranked == [] then []
    else
      var rest := Kept(idMap, ranked[..|ranked| - 1], threshold);
      var h := ranked[|ranked| - 1];
      if h.1 >= threshold then rest + [(idMap[h.0], h.1)] else rest
  }

  /**
   * The kept entries are exactly the images of the hits at or above the
   * threshold: nothing below it gets in, nothing above it is lost.
   */
  lemma {:induction false} KeptExactly(idMap: map<nat, int>, ranked: seq<Hit>, threshold: real, x: Scored)
    requires ValidRanking(idMap, ranked)
    ensures x in Kept(idMap, ranked, threshold) <==>
            exists k :: 0 <= k < |ranked| && ranked[k].1 >= threshold && x == (idMap[ranked[k].0], ranked[k].1)
  {
    if ranked != [] {
      var init := ranked[..|ranked| - 1];
      KeptExactly(idMap, init, threshold, x);
      if x in Kept(idMap, ranked, threshold) && x !in Kept(idMap, init, threshold) {
        var k := |ranked| - 1;
        assert ranked[k].1 >= threshold && x == (idMap[ranked[k].0], ranked[k].1);
      }
      if exists k :: 0 <= k < |ranked| && ranked[k].1 >= threshold && x == (idMap[ranked[k].0], ranked[k].1) {
        var k :| 0 <= k < |ranked| && ranked[k].1 >= threshold && x == (idMap[ranked[k].0], ranked[k].1);
        if k < |ranked| - 1 {
          assert init[k] == ranked[k];
        }
      }
    }
  }

  /** The positions of the ranking whose score reaches the threshold. */
  function HitsAtOrAbove(ranked: seq<Hit>, threshold: real): set<nat>
  {
    set k: nat | k < |ranked| && ranked[k].1 >= threshold
  }

  /** The filter keeps one entry per hit at or above the threshold. */
  lemma {:induction false} KeptCount(idMap: map<nat, int>, ranked: seq<Hit>, threshold: real)
    requires ValidRanking(idMap, ranked)
    ensures |Kept(idMap, ranked, threshold)| == |HitsAtOrAbove(ranked, threshold)|
  {
    if ranked == [] {
      assert HitsAtOrAbove(ranked, threshold) == {};
    } else {
      var n := |ranked| - 1;
      var init := ranked[..n];
      KeptCount(idMap, init, threshold);
      var a := HitsAtOrAbove(init, threshold);
      assert forall k :: 0 <= k < n ==> init[k] == ranked[k];
      if ranked[n].1 >= threshold {
        assert HitsAtOrAbove(ranked, threshold) == a + {n};
      } else {
        assert HitsAtOrAbove(ranked, threshold) == a;
      }
    }
  }

  // ---------------------------------------------------------------------------
  // The stable descending sort: `resultados.sort(key=lambda x: x[1], reverse=True)`.

  predicate SortedDesc(s: seq<Scored>)
  {
    forall i, j :: 0 <= i < j < |s| ==> s[i].1 >= s[j].1
  }

  /** The entries of s whose score is v, in their order in s. */
  function WithScore(s: seq<Scored>, v: real): seq<Scored>
  {
    if s == [] then [] else (if s[0].1 == v then [s[0]] else []) + WithScore(s[1..], v)
  }

  lemma {:induction false} WithScoreAppend(a: seq<Scored>, b: seq<Scored>, v: real)
    ensures WithScore(a + b, v) == WithScore(a, v) + WithScore(b, v)
  {
    if a != [] {
      assert (a + b)[1..] == a[1..] + b;
      WithScoreAppend(a[1..], b, v);
    } else {
      assert a + b == b;
    }
  }

  lemma {:induction false} WithScoreNone(s: seq<Scored>, v: real)
    requires forall k :: 0 <= k < |s| ==> s[k].1 < v
    ensures WithScore(s, v) == []
  {
    if s != [] {
      WithScoreNone(s[1..], v);
    }
  }

  /** Place x after every entry scoring at least as much as it, before the first scoring less. */
  function Insert(s: seq<Scored>, x: Scored): (r: seq<Scored>)
    requires SortedDesc(s)
    ensures SortedDesc(r)
    ensures multiset(r) == multiset(s) + multiset{x}
    ensures r != [] && (r[0] == x || (s != [] && r[0] == s[0]))
  {
    if s == [] then [x]
    else if s[0].1 < x.1 then
      ConsSorted(x, s);
      [x] + s
    else
      var rest := Insert(s[1..], x);
      assert s[1..] != [] ==> s[1..][0] == s[1];
      ConsSorted(s[0], rest);
      assert s == [s[0]] + s[1..];
      [s[0]] + rest
  }

  /** An entry scoring at least as much as the head of a descending list can go in front of it. */
  lemma ConsSorted(h: Scored, r: seq<Scored>)
    requires SortedDesc(r) && (r != [] ==> h.1 >= r[0].1)
    ensures SortedDesc([h] + r)
  {
    var hr := [h] + r;
    forall i, j | 0 <= i < j < |hr| ensures hr[i].1 >= hr[j].1 {
      if i == 0 {
        assert hr[j] == r[j - 1];
      } else {
        assert hr[i] == r[i - 1] && hr[j] == r[j - 1];
      }
    }
  }

  /** Inserting x adds it after the entries of its own score and leaves other scores alone. */
  lemma {:induction false} InsertStable(s: seq<Scored>, x: Scored, v: real)
    requires SortedDesc(s)
    ensures WithScore(Insert(s, x), v) == WithScore(s, v) + WithScore([x], v)
  {
    if s == [] {
    } else if s[0].1 < x.1 {
      InsertInFront(s, x, v);
    } else {
      InsertStable(s[1..], x, v);
      InsertBehind(s, x, v);
    }
  }

  /** When x goes behind the head, the head is kept and x is inserted into the tail. */
  lemma InsertBehind(s: seq<Scored>, x: Scored, v: real)
    requires SortedDesc(s) && s != [] && s[0].1 >= x.1
    requires WithScore(Insert(s[1..], x), v) == WithScore(s[1..], v) + WithScore([x], v)
    ensures WithScore(Insert(s, x), v) == WithScore(s, v) + WithScore([x], v)
  {
    var r := Insert(s, x);
    InsertBehindHead(s, x);
    var h := WithScore([s[0]], v);
    HeadWithScore(r, v);
    HeadWithScore(s, v);
    assert WithScore(r, v) == h + (WithScore(s[1..], v) + WithScore([x], v));
    AppendAssoc(h, WithScore(s[1..], v), WithScore([x], v));
  }

  lemma AppendAssoc(a: seq<Scored>, b: seq<Scored>, c: seq<Scored>)
    ensures a + (b + c) == (a + b) + c
  {
  }

  /** When x outscores the head it goes first, ahead of nothing of its own score. */
  lemma InsertInFront(s: seq<Scored>, x: Scored, v: real)
    requires SortedDesc(s) && s != [] && s[0].1 < x.1
    ensures WithScore(Insert(s, x), v) == WithScore(s, v) + WithScore([x], v)
  {
    assert Insert(s, x) == [x] + s;
    WithScoreAppend([x], s, v);
    if x.1 == v {
      WithScoreNone(s, v);
    }
  }

  lemma InsertBehindHead(s: seq<Scored>, x: Scored)
    requires SortedDesc(s) && s != [] && s[0].1 >= x.1
    ensures Insert(s, x) != [] && Insert(s, x)[0] == s[0] && Insert(s, x)[1..] == Insert(s[1..], x)
  {
  }

  /** The entries of score v are those of the head, then those of the tail. */
  lemma HeadWithScore(s: seq<Scored>, v: real)
    requires s != []
    ensures WithScore(s, v) == WithScore([s[0]], v) + WithScore(s[1..], v)
  {
    assert WithScore([s[0]][1..], v) == [];
  }

  /**
   * Python's list.sort with key score and reverse=True: the result is
   * ordered by non-increasing score, holds the same entries, and the
   * entries of any one score keep their input order (the sort is stable).
   */
  function SortByScoreDesc(s: seq<Scored>): (r: seq<Scored>)
    ensures SortedDesc(r)
    ensures multiset(r) == multiset(s)
    ensures forall v :: WithScore(r, v) == WithScore(s, v)
  {
    if s == [] then []
    else
      var init := s[..|s| - 1];
      var last := s[|s| - 1];
      var r := Insert(SortByScoreDesc(init), last);
      assert s == init + [last];
      assert forall v :: WithScore(r, v) == WithScore(s, v) by {
        forall v ensures WithScore(r, v) == WithScore(s, v) {
          InsertStable(SortByScoreDesc(init), last, v);
          WithScoreAppend(init, [last], v);
        }
      }
      r
  }

  /** A sorted list in which each score's entries come in a given order is determined by that order. */
  lemma {:induction false} StableSortUnique(r: seq<Scored>, r': seq<Scored>)
    requires SortedDesc(r) && SortedDesc(r')
    requires forall v :: WithScore(r, v) == WithScore(r', v)
    ensures r == r'
    decreases |r| + |r'|
  {
    if r != [] && r' != [] {
      var v, v' := r[0].1, r'[0].1;
      HeadScoreIsMax(r, r');
      assert v == v';
      var w := WithScore(r, v);
      assert r[0] == w[0] == WithScore(r', v)[0] == r'[0];
      forall u ensures WithScore(r[1..], u) == WithScore(r'[1..], u) {
        var p := if r[0].1 == u then [r[0]] else [];
        assert WithScore(r, u) == p + WithScore(r[1..], u);
        assert WithScore(r', u) == p + WithScore(r'[1..], u);
        assert WithScore(r[1..], u) == WithScore(r, u)[|p|..];
        assert WithScore(r'[1..], u) == WithScore(r', u)[|p|..];
      }
      StableSortUnique(r[1..], r'[1..]);
      assert r == [r[0]] + r[1..] && r' == [r'[0]] + r'[1..];
    } else if r != [] {
      WithScoreIn(r, r[0].1);
      assert false;
    } else if r' != [] {
      WithScoreIn(r', r'[0].1);
      assert false;
    }
  }

  /** The first entries of two such lists carry the same score: the top score of both. */
  lemma HeadScoreIsMax(r: seq<Scored>, r': seq<Scored>)
    requires r != [] && r' != []
    requires SortedDesc(r) && SortedDesc(r')
    requires forall v :: WithScore(r, v) == WithScore(r', v)
    ensures r[0].1 == r'[0].1
  {
    var v, v' := r[0].1, r'[0].1;
    if v < v' {
      WithScoreIn(r', v');
      WithScoreMember(r, v', WithScore(r', v')[0]);
    } else if v' < v {
      WithScoreIn(r, v);
      WithScoreMember(r', v, WithScore(r, v)[0]);
    }
  }

  lemma {:induction false} WithScoreIn(s: seq<Scored>, v: real)
    requires s != [] && s[0].1 == v
    ensures WithScore(s, v) != [] && WithScore(s, v)[0] == s[0]
  {
  }

  /** Every entry of WithScore(s, v) is an entry of s that scores v. */
  lemma {:induction false} WithScoreMember(s: seq<Scored>, v: real, x: Scored)
    requires x in WithScore(s, v)
    ensures x in s && x.1 == v
  {
    if s != [] {
      if x != s[0] || s[0].1 != v {
        WithScoreMember(s[1..], v, x);
      }
    }
  }

  // ---------------------------------------------------------------------------

  /**
   * buscar: the filter loop appends (id_map[pos], score) for every hit at or
   * above the threshold, then the list is sorted by descending score.
   */
  method Buscar(idMap: map<nat, int>, ranked: seq<Hit>, threshold: real) returns (results: seq<Scored>)
    requires ValidRanking(idMap, ranked)
    ensures results == SortByScoreDesc(Kept(idMap, ranked, threshold))
    ensures SortedDesc(results)
    ensures forall x :: x in results <==>
              exists k :: 0 <= k < |ranked| && ranked[k].1 >= threshold && x == (idMap[ranked[k].0], ranked[k].1)
  {
    var kept: seq<Scored> := [];
    var i := 0;
    while i < |ranked|
      invariant 0 <= i <= |ranked|
      invariant kept == Kept(idMap, ranked[..i], threshold)
    {
      assert ranked[..i + 1][..i] == ranked[..i];
      var (pos, score) := ranked[i];
      if score >= threshold {
        kept := kept + [(idMap[pos], score)];
      }
      i := i + 1;
    }
    assert ranked[..i] == ranked;
    results := SortByScoreDesc(kept);
    forall x ensures x in results <==>
        exists k :: 0 <= k < |ranked| && ranked[k].1 >= threshold && x == (idMap[ranked[k].0], ranked[k].1)
    {
      assert x in results <==> x in multiset(results);
      assert x in kept <==> x in multiset(kept);
      KeptExactly(idMap, ranked, threshold, x);
    }
  }

  /** Every score buscar returns reaches the threshold. */
  lemma BuscarAboveThreshold(idMap: map<nat, int>, ranked: seq<Hit>, threshold: real, k: nat)
    requires ValidRanking(idMap, ranked)
    requires k < |SortByScoreDesc(Kept(idMap, ranked, threshold))|
    ensures SortByScoreDesc(Kept(idMap, ranked, threshold))[k].1 >= threshold
  {
    var r := SortByScoreDesc(Kept(idMap, ranked, threshold));
    var x := r[k];
    assert x in multiset(r);
    KeptExactly(idMap, ranked, threshold, x);
  }
}

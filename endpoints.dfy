/**
 * The two search endpoints, /buscar_user (main.py:186-209) and /buscar_alias
 * (main.py:211-236), over the context built at startup. What the database
 * answers to the substring search and what the vector index answers to the
 * query are inputs: `sqlRows` and `ranked`.
 */
module Endpoints {
  import opened Wrappers
  import opened Records
  import opened Corpus
  import opened Search
  import opened Router
  import opened Resolver
  import opened Paginator

  /** The endpoints' default page and page size (main.py:187, 212). */
  const DefaultPage: int := 1
  const DefaultLimit: int := 10

  /** The index ranks positions of its own corpus only. */
  predicate RankingWithin(ranked: seq<Hit>, n: nat)
  {
    forall k :: 0 <= k < |ranked| ==> ranked[k].0 < n
  }

  /** The users /buscar_user reports before pagination. */
  function UserMatches(ctx: Context, query: string, threshold: real, sqlRows: seq<UserRow>, ranked: seq<Hit>): (r: seq<UserRow>)
    requires Valid(ctx)
    requires Route(query).Semantic? ==> RankingWithin(ranked, |ctx.users|)
    ensures Route(query).Exact? ==> r == sqlRows
    ensures Route(query).Semantic? ==> |r| <= |ranked| && forall k :: 0 <= k < |r| ==> r[k] in ctx.users
  {
    match Route(query)
    case Exact(_) => sqlRows
    case Semantic(_) =>
      var sorted := SortByScoreDesc(Kept(ctx.idMapUsers, ranked, threshold));
      assert |sorted| == |multiset(sorted)|;
      Resolved(ctx.users, UserId, sorted)
  }

  /** The aliases /buscar_alias reports before pagination. */
  function AliasMatches(ctx: Context, query: string, threshold: real, sqlRows: seq<AliasRow>, ranked: seq<Hit>): (r: seq<AliasRow>)
    requires Valid(ctx)
    requires Route(query).Semantic? ==> RankingWithin(ranked, |ctx.aliases|)
    ensures Route(query).Exact? ==> r == sqlRows
    ensures Route(query).Semantic? ==> |r| <= |ranked| && forall k :: 0 <= k < |r| ==> r[k] in ctx.aliases
  {
    match Route(query)
    case Exact(_) => sqlRows
    case Semantic(_) =>
      var sorted := SortByScoreDesc(Kept(ctx.idMapAliases, ranked, threshold));
      assert |sorted| == |multiset(sorted)|;
      Resolved(ctx.aliases, AliasId, sorted)
  }

  /**
   * Every id the semantic search returns was read from the id map, so it is
   * the id of a snapshot record: the resolver drops nothing and the page
   * total is the number of hits at or above the threshold.
   */
  lemma SemanticHitsResolve<R>(records: seq<R>, idOf: R -> int, text: R -> string,
                               corpus: seq<string>, idMap: map<nat, int>,
                               ranked: seq<Hit>, threshold: real)
    requires Indexed(records, idOf, text, corpus, idMap)
    requires RankingWithin(ranked, |records|)
    ensures ValidRanking(idMap, ranked)
    ensures var sorted := SortByScoreDesc(Kept(idMap, ranked, threshold));
            forall k :: 0 <= k < |sorted| ==> HasId(records, idOf, sorted[k].0)
    ensures |Resolved(records, idOf, SortByScoreDesc(Kept(idMap, ranked, threshold)))|
            == |Kept(idMap, ranked, threshold)|
  {
    var sorted := SortByScoreDesc(Kept(idMap, ranked, threshold));
    forall k | 0 <= k < |sorted| ensures HasId(records, idOf, sorted[k].0) {
      var x := sorted[k];
      assert x in multiset(sorted);
      KeptExactly(idMap, ranked, threshold, x);
      var j :| 0 <= j < |ranked| && ranked[j].1 >= threshold && x == (idMap[ranked[j].0], ranked[j].1);
      assert idOf(records[ranked[j].0]) == x.0;
    }
    ResolvedKeepsKnownIds(records, idOf, sorted);
    assert |multiset(sorted)| == |multiset(Kept(idMap, ranked, threshold))|;
  }

  /**
   * The semantic branch of both endpoints (main.py:194-199, 219-224): buscar,
   * then the records of the ids it returns, in its order.
   */
  method SemanticSearch<R>(records: seq<R>, idOf: R -> int, text: R -> string,
                           corpus: seq<string>, idMap: map<nat, int>,
                           ranked: seq<Hit>, threshold: real)
    returns (found: seq<R>)
    requires Indexed(records, idOf, text, corpus, idMap)
    requires RankingWithin(ranked, |records|)
    ensures found == Resolved(records, idOf, SortByScoreDesc(Kept(idMap, ranked, threshold)))
    ensures |found| == |Kept(idMap, ranked, threshold)|
  {
    SemanticHitsResolve(records, idOf, text, corpus, idMap, ranked, threshold);
    var resultados := Buscar(idMap, ranked, threshold);
    found := ResolveRanked(records, idOf, resultados);
  }

  /** Users reported: the SQL rows, or one per semantic hit at or above the threshold. */
  lemma UserMatchesCount(ctx: Context, query: string, threshold: real, sqlRows: seq<UserRow>, ranked: seq<Hit>)
    requires Valid(ctx)
    requires Route(query).Semantic? ==> RankingWithin(ranked, |ctx.users|)
    ensures Route(query).Exact? ==> |UserMatches(ctx, query, threshold, sqlRows, ranked)| == |sqlRows|
    ensures Route(query).Semantic? ==>
              |UserMatches(ctx, query, threshold, sqlRows, ranked)| == |Kept(ctx.idMapUsers, ranked, threshold)|
                                                                    == |HitsAtOrAbove(ranked, threshold)|
  {
    if Route(query).Semantic? {
      SemanticHitsResolve(ctx.users, UserId, UserText, ctx.corpusUsers, ctx.idMapUsers, ranked, threshold);
      KeptCount(ctx.idMapUsers, ranked, threshold);
    }
  }

  /** Aliases reported: the SQL rows, or one per semantic hit at or above the threshold. */
  lemma AliasMatchesCount(ctx: Context, query: string, threshold: real, sqlRows: seq<AliasRow>, ranked: seq<Hit>)
    requires Valid(ctx)
    requires Route(query).Semantic? ==> RankingWithin(ranked, |ctx.aliases|)
    ensures Route(query).Exact? ==> |AliasMatches(ctx, query, threshold, sqlRows, ranked)| == |sqlRows|
    ensures Route(query).Semantic? ==>
              |AliasMatches(ctx, query, threshold, sqlRows, ranked)| == |Kept(ctx.idMapAliases, ranked, threshold)|
                                                                    == |HitsAtOrAbove(ranked, threshold)|
  {
    if Route(query).Semantic? {
      SemanticHitsResolve(ctx.aliases, AliasId, AliasText, ctx.corpusAliases, ctx.idMapAliases, ranked, threshold);
      KeptCount(ctx.idMapAliases, ranked, threshold);
    }
  }

  /** endpoint_buscar_user. */
  method BuscarUser(ctx: Context, query: string, page: int, limit: int, threshold: real,
                    sqlRows: seq<UserRow>, ranked: seq<Hit>)
    returns (r: Result<Page<UserView>, PageError>)
    requires Valid(ctx)
    requires Route(query).Semantic? ==> RankingWithin(ranked, |ctx.users|)
    ensures r == Paginate(FormatAll(UserMatches(ctx, query, threshold, sqlRows, ranked)), page, limit)
  {
    var data: seq<UserRow> := [];
    if Route(query).Exact? {
      data := data + sqlRows;
      assert data == sqlRows;
    } else {
      var found := SemanticSearch(ctx.users, UserId, UserText, ctx.corpusUsers, ctx.idMapUsers, ranked, threshold);
      data := data + found;
      assert data == found;
    }
    r := Paginate(FormatAll(data), page, limit);
  }

  /** endpoint_buscar_alias: the same flow, with aliases passed through unformatted. */
  method BuscarAlias(ctx: Context, query: string, page: int, limit: int, threshold: real,
                     sqlRows: seq<AliasRow>, ranked: seq<Hit>)
    returns (r: Result<Page<AliasRow>, PageError>)
    requires Valid(ctx)
    requires Route(query).Semantic? ==> RankingWithin(ranked, |ctx.aliases|)
    ensures r == Paginate(AliasMatches(ctx, query, threshold, sqlRows, ranked), page, limit)
  {
    var data: seq<AliasRow> := [];
    if Route(query).Exact? {
      data := data + sqlRows;
      assert data == sqlRows;
    } else {
      var found := SemanticSearch(ctx.aliases, AliasId, AliasText, ctx.corpusAliases, ctx.idMapAliases, ranked, threshold);
      data := data + found;
      assert data == found;
    }
    r := Paginate(data, page, limit);
  }

  /** A one-word query is answered by the SQL search alone: threshold and ranking play no part. */
  lemma ExactPathIgnoresIndex(ctx: Context, query: string, t: real, t': real,
                              sqlRows: seq<UserRow>, ranked: seq<Hit>, ranked': seq<Hit>)
    requires Valid(ctx)
    requires |Split(query)| == 1
    ensures UserMatches(ctx, query, t, sqlRows, ranked) == UserMatches(ctx, query, t', sqlRows, ranked') == sqlRows
  {
  }

  /** Without page and limit parameters a client gets the first ten results. */
  lemma DefaultPageIsFirstTen<T>(data: seq<T>)
    ensures Paginate(data, DefaultPage, DefaultLimit).value.items == data[..Min(DefaultLimit, |data|)]
  {
    PageSlice(data, DefaultPage, DefaultLimit);
  }
}

/**
 * Startup: the record snapshots are turned into the two corpora the
 * embedding indexes are built from, each with its position -> id map.
 * The result is one immutable context that every request reads.
 */
module Corpus {
  import opened Wrappers
  import opened Records

  /** The positions 0 .. n-1 of a corpus of n entries. */
  function Positions(n: nat): (p: set<nat>)
    ensures |p| == n
    ensures forall i: nat :: i in p <==> i < n
  {
    if n == 0 then {} else Positions(n - 1) + {n - 1}
  }

  /**
   * The corpus and id map derived from a record list: entry i is the text of
   * record i, the map sends exactly the positions 0 .. n-1 to the ids of the
   * records at those positions.
   */
  ghost predicate Indexed<R>(records: seq<R>, idOf: R -> int, text: R -> string,
                             corpus: seq<string>, idMap: map<nat, int>)
  {
    && |corpus| == |records|
    && (forall i :: 0 <= i < |records| ==> corpus[i] == text(records[i]))
    && (forall i: nat :: i in idMap <==> i < |records|)
    && (forall i :: 0 <= i < |records| ==> idMap[i] == idOf(records[i]))
  }

  /**
   * The build loop (main.py:74-82 for users, 89-93 for aliases): walk the
   * records in order, append each one's text and record its id at the same
   * position.
   */
  method BuildCorpus<R>(records: seq<R>, idOf: R -> int, text: R -> string)
    returns (corpus: seq<string>, idMap: map<nat, int>)
    ensures Indexed(records, idOf, text, corpus, idMap)
    ensures |idMap| == |corpus| == |records|
  {
    corpus, idMap := [], map[];
    var i := 0;
    while i < |records|
      invariant 0 <= i <= |records|
      invariant |corpus| == i
      invariant forall k :: 0 <= k < i ==> corpus[k] == text(records[k])
      invariant forall k: nat :: k in idMap <==> k < i
      invariant forall k :: 0 <= k < i ==> idMap[k] == idOf(records[k])
    {
      corpus := corpus + [text(records[i])];
      idMap := idMap[i := idOf(records[i])];
      i := i + 1;
    }
    KeyCount(idMap, |records|);
  }

  /** A map whose keys are exactly the positions 0 .. n-1 has n entries. */
  lemma KeyCount<V>(m: map<nat, V>, n: nat)
    requires forall i: nat :: i in m <==> i < n
    ensures |m| == n
  {
    assert m.Keys == Positions(n);
  }

  datatype StartupError = NoUsers | NoAliases

  /** Everything startup derives from the two snapshots; read-only afterwards. */
  datatype Context = Context(
    users: seq<UserRow>,
    corpusUsers: seq<string>,
    idMapUsers: map<nat, int>,
    aliases: seq<AliasRow>,
    corpusAliases: seq<string>,
    idMapAliases: map<nat, int>)

  ghost predicate Valid(ctx: Context)
  {
    && Indexed(ctx.users, UserId, UserText, ctx.corpusUsers, ctx.idMapUsers)
    && Indexed(ctx.aliases, AliasId, AliasText, ctx.corpusAliases, ctx.idMapAliases)
  }

  /**
   * Module initialisation (main.py:69-93): an empty user snapshot aborts
   * before aliases are considered, then an empty alias snapshot aborts; the
   * snapshots are otherwise indexed in full.
   */
  method Startup(users: seq<UserRow>, aliases: seq<AliasRow>) returns (r: Result<Context, StartupError>)
    ensures r.Failure? <==> users == [] || aliases == []
    ensures users == [] ==> r == Failure(NoUsers)
    ensures users != [] && aliases == [] ==> r == Failure(NoAliases)
    ensures r.Success? ==> Valid(r.value) && r.value.users == users && r.value.aliases == aliases
  {
    if users == [] {
      return Failure(NoUsers);
    }
    var corpusUsers, idMapUsers := BuildCorpus(users, UserId, UserText);
    if aliases == [] {
      return Failure(NoAliases);
    }
    var corpusAliases, idMapAliases := BuildCorpus(aliases, AliasId, AliasText);
    r := Success(Context(users, corpusUsers, idMapUsers, aliases, corpusAliases, idMapAliases));
  }

  /** Position i of the user index stands for users[i]: same id and same text. */
  lemma UserPositionsMatch(ctx: Context, i: nat)
    requires Valid(ctx)
    requires i < |ctx.corpusUsers|
    ensures i in ctx.idMapUsers && ctx.idMapUsers[i] == ctx.users[i].id
    ensures ctx.corpusUsers[i] == UserText(ctx.users[i])
    ensures |ctx.idMapUsers| == |ctx.corpusUsers| == |ctx.users|
  {
    KeyCount(ctx.idMapUsers, |ctx.users|);
  }

  /** Equal user texts at two positions imply equal ids there. */
  lemma EqualUserTextsShareId(ctx: Context, i: nat, j: nat)
    requires Valid(ctx)
    requires i < |ctx.corpusUsers| && j < |ctx.corpusUsers|
    requires ctx.corpusUsers[i] == ctx.corpusUsers[j]
    ensures ctx.idMapUsers[i] == ctx.idMapUsers[j]
  {
    UserTextDeterminesId(ctx.users[i], ctx.users[j]);
  }

  /** Position i of the alias index stands for aliases[i]: same id and same text. */
  lemma AliasPositionsMatch(ctx: Context, i: nat)
    requires Valid(ctx)
    requires i < |ctx.corpusAliases|
    ensures i in ctx.idMapAliases && ctx.idMapAliases[i] == ctx.aliases[i].id
    ensures ctx.corpusAliases[i] == AliasText(ctx.aliases[i])
    ensures |ctx.idMapAliases| == |ctx.corpusAliases| == |ctx.aliases|
  {
    KeyCount(ctx.idMapAliases, |ctx.aliases|);
  }

  /** Equal alias texts at two positions imply equal ids there. */
  lemma EqualAliasTextsShareId(ctx: Context, i: nat, j: nat)
    requires Valid(ctx)
    requires i < |ctx.corpusAliases| && j < |ctx.corpusAliases|
    requires ctx.corpusAliases[i] == ctx.corpusAliases[j]
    ensures ctx.idMapAliases[i] == ctx.idMapAliases[j]
  {
    AliasTextDeterminesId(ctx.aliases[i], ctx.aliases[j]);
  }
}

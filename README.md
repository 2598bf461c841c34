# Hybrid user and alias search: a verified model of the retrieval core

The service answers `GET /buscar_user` and `GET /buscar_alias` over two
MySQL tables: user accounts (joined with their transport row) and mail
aliases. At startup it loads a snapshot of the live rows of each table. It
writes one labelled text per row (`"ID: 7 Login: ops-team Email: ..."`) and
records, position by position, which row id each text belongs to. The texts
are embedded into a vector index. Each request then goes one of two ways:

- A one-word query is sent to a SQL `LIKE '%<query as sent>%'` search. The
  pattern is built from the unstripped query, so `" ops "` searches
  `'% ops %'`.
- Any other query (no word, or several words) is sent to the vector index.
  Hits scoring at or above a threshold are kept (default 0.45 for users,
  0.35 for aliases), mapped to row ids, sorted by descending score, and
  resolved back to snapshot rows.

Users are reshaped with a nested transport object. The list is then paged
(`TotalCount`, `TotalPages`, and the page's slice). A middleware refuses
every `/buscar...` request whose `X-Master-Key` header differs from
`MASTER_KEY`.

The model has one module per component:

- `Records` (records.dfy): the row types and `formatear_usuario`. It also
  holds the labelled texts and the decimal rendering of ids inside them.
- `Corpus` (corpus.dfy): the corpus and id-map build loop. Startup turns the
  two snapshots into one immutable `Context`, or fails on an empty snapshot.
- `Search` (search.dfy): `buscar`. The threshold filter loop is a method.
  Python's stable `list.sort` is a function.
- `Router` (router.dfy): `str.strip()`, `str.split()` and the one-word rule.
- `Resolver` (resolver.dfy): the first-match lookup `next(...)` and the
  loop that appends the found rows.
- `Paginator` (paginator.dfy): `math.ceil(total / limit)` and the Python
  slice, including its handling of negative indices.
- `Access` (access.dfy): the middleware's decision to hand a request on or
  to raise `HTTPException(403, "Forbidden: Invalid MASTER_KEY")`.
- `Endpoints` (endpoints.dfy): both endpoints, from query to page.

Things outside the core are inputs to the model. This covers the rows MySQL
returns, the rows the SQL substring search returns (`sqlRows`) and the
ranking the vector index returns for a query (`ranked`: a list of
(position, score) pairs). Scores are `real`. Only their order matters to
the core.

Points where the code's behaviour is easy to misread, and which the model
follows:

- An empty or all-whitespace query has no words (`"".split() == []`). It
  therefore goes to the semantic search, not to the SQL search with an
  empty pattern (`Router.RouteByWordCount`).
- A ranked id is resolved by a linear scan of the snapshot that returns the
  first row with that id (`Resolver.FirstWithId`). There is no id-keyed
  map. If ids repeat, the first row wins.
- Pages are Python slices. Page 0 is empty. A negative page counts back
  from the end of the list (`Paginator.NonPositivePages`). A page past the
  last one is empty, not an error. `limit = 0` raises `ZeroDivisionError`
  before anything is sliced.
- Both searches receive the query exactly as sent, not stripped.

## Model

| member | source | states |
|---|---|---|
| `Records.FormatUser` | main.py:152-168 | the view keeps every field of the row and nests the transport id, domain and kind; flattening the view gives back the row |
| `Records.FormatAll` | main.py:200 | the formatted list has one view per row, in order, each flattening back to its row |
| `Records.FormatUserInjective` | main.py:152-168 | two distinct rows never give the same view |
| `Records.IntText` | main.py:77 | `str()` of an id: a non-negative id gives a decimal numeral with no leading zero ("0" for zero), a negative id a minus sign followed by such a numeral; no space in either |
| `Records.UserText` | main.py:76-80 | the user's labelled text "ID: <id> Login: ... Transport: <transport>": it starts with "ID: ", the id's numeral and a space, and ends with the transport |
| `Records.AliasText` | main.py:91 | the alias's labelled text "ID: <id> Local: <local> Remoto: <remoto>": it starts with "ID: ", the id's numeral and a space, and ends with the remote address |
| `Records.ParseIntText` | main.py:77 | the decimal rendering of an id, as `str()` writes it in the labelled text, reads back as that id |
| `Records.LabelledTextDeterminesId` | main.py:76-80 | a text of the form "ID: <id> ..." fixes the id it carries |
| `Records.UserTextDeterminesId` | main.py:76-80 | two users with the same labelled text have the same id |
| `Records.AliasTextDeterminesId` | main.py:91 | two aliases with the same labelled text have the same id |
| `Corpus.BuildCorpus` | main.py:74-82 | after the loop the corpus has one entry per record, entry i is the text of record i, and the id map has exactly the keys 0..n-1 with id_map[i] = id of record i; map, corpus and record list have the same size |
| `Corpus.KeyCount` | main.py:82 | an id map keyed by exactly 0..n-1 has n entries |
| `Corpus.Startup` | main.py:69-93 | an empty user snapshot fails with the user error, else an empty alias snapshot fails with the alias error; otherwise both snapshots are indexed in full and kept unchanged |
| `Corpus.UserPositionsMatch` | main.py:74-82 | position i of the user index holds user i's id and text; map, corpus and snapshot have equal sizes |
| `Corpus.EqualUserTextsShareId` | main.py:74-82 | two index positions with equal texts map to the same id |
| `Corpus.AliasPositionsMatch` | main.py:89-93 | position i of the alias index holds alias i's id and text; map, corpus and snapshot have equal sizes |
| `Corpus.EqualAliasTextsShareId` | main.py:89-93 | two alias index positions with equal texts map to the same id |
| `Search.Kept` | main.py:112-115 | the filter loop's list has no more entries than there are hits, and every entry's score is at or above the threshold |
| `Search.KeptExactly` | main.py:112-115 | the filtered list contains (id_map[pos], score) exactly for the hits with score >= threshold, and nothing else |
| `Search.KeptCount` | main.py:112-115 | the filtered list has exactly as many entries as there are ranking positions whose score reaches the threshold |
| `Search.Insert` | main.py:116 | inserting into a descending list keeps it descending and adds exactly the one entry |
| `Search.InsertStable` | main.py:116 | an inserted entry goes after the entries of equal score, and the entries of other scores keep their order |
| `Search.SortByScoreDesc` | main.py:116 | the sorted list is ordered by non-increasing score, is a permutation of its input, and entries of equal score keep their input order |
| `Search.StableSortUnique` | main.py:116 | a descending list is determined by the order of the entries within each score, so the stable sort has exactly one possible result |
| `Search.Buscar` | main.py:108-117 | the result is the stable descending sort of the filtered hits; an entry is in it exactly when some hit at or above the threshold maps to it |
| `Search.BuscarAboveThreshold` | main.py:114-115 | every score buscar returns is at or above the threshold |
| `Router.Split` | main.py:188 | every word produced by split is non-empty and contains no whitespace |
| `Router.SplitIs` | main.py:188 | a query made of whitespace, a word, and a rest that is empty or starts with whitespace splits into that word followed by the split of the rest |
| `Router.Strip` | main.py:188 | `str.strip()` is empty exactly for a blank query, and otherwise starts and ends with a non-whitespace character; it is never longer than the query |
| `Router.SplitEmptyIffBlank` | main.py:188 | split gives no words exactly when the query is empty or all whitespace |
| `Router.SplitIgnoresTrailingSpace` | main.py:188 | whitespace appended to a query adds no word |
| `Router.SplitIgnoresLeadingSpace` | main.py:188 | whitespace put before a query adds no word |
| `Router.StripThenSplit` | main.py:188 | `query.strip().split()` equals `query.split()` |
| `Router.SplitSingleIff` | main.py:188-191 | split gives exactly one word when the query is a single word padded by whitespace, and only then |
| `Router.Route` | main.py:188-195 | a one-word query goes to the SQL search, any other to the semantic search, each with the original query |
| `Router.RouteByWordCount` | main.py:191-195 | the SQL path is taken exactly for a padded single word; every other query, including a blank one, takes the semantic path |
| `Resolver.FirstWithId` | main.py:170-174 | the lookup finds nothing exactly when no record has the id; otherwise it returns the record at the first position holding the id |
| `Resolver.Resolved` | main.py:196-199 | the append loop's list has at most one entry per ranked id, and every entry is a snapshot record |
| `Resolver.ResolveRanked` | main.py:196-199 | the loop yields the records found for the ranked ids, in ranking order, skipping misses; no more entries than ranked ids, each a snapshot record |
| `Resolver.ResolvedAppend` | main.py:196-199 | resolving two rankings in turn gives the concatenation of their results: the loop keeps ranking order, with or without misses |
| `Resolver.ResolvedSingle` | main.py:196-199 | one ranked id resolves to its first record when some record has the id, and to nothing otherwise |
| `Resolver.ResolvedKeepsKnownIds` | main.py:196-199 | when every ranked id belongs to some record, nothing is dropped and entry k is the first record with the k-th ranked id |
| `Resolver.ResolvedAreFirstMatches` | main.py:196-199 | every resolved record is the first match of some ranked id |
| `Paginator.CeilDiv` | main.py:203 | for a positive limit, TotalPages pages of limit items cover the total and one page fewer does not; for a negative limit the mirrored bounds hold |
| `Paginator.CeilDivIsCeiling` | main.py:203 | TotalPages is the ceiling of the exact quotient total / limit, for either sign of limit |
| `Paginator.SliceBound` | main.py:208 | Python's normalisation of one slice index: an index in 0..n is kept, one past the end becomes n, and a negative index i becomes max(0, n + i) |
| `Paginator.PySlice` | main.py:208 | `data[start:end]` for arbitrary integers: in-range bounds give exactly the items between them, crossed non-negative bounds give nothing, and the slice is never longer than the data |
| `Paginator.PageOf` | main.py:204-208 | `data[start:end]` with start = (page-1)*limit and end = start + limit holds at most limit items for a positive limit, and never more than the data |
| `Paginator.Paginate` | main.py:202-208 | limit 0 is an error and every other limit a page; TotalCount is the number of results, and the page is a sub-multiset of the results |
| `Paginator.PageContents` | main.py:204-208 | for page >= 1 and limit >= 1 the page holds max(0, min(limit, total - (page-1)*limit)) items, read from offset (page-1)*limit |
| `Paginator.PageSlice` | main.py:204-208 | page p >= 1 is the data between (p-1)*limit and p*limit, clamped to the data's length |
| `Paginator.TotalPagesFits` | main.py:203 | TotalPages pages of limit items hold all results, and one page fewer does not |
| `Paginator.PastLastPageIsEmpty` | main.py:204-208 | a page past TotalPages is empty rather than an error |
| `Paginator.FirstPagesArePrefix` | main.py:204-208 | pages 1..n read in turn give the first n*limit results in order |
| `Paginator.AllPagesAreTheData` | main.py:202-208 | pages 1..TotalPages read in turn give the whole result list, each item once |
| `Paginator.TwentyFiveByTen` | main.py:202-208 | 25 results at 10 per page give 3 pages; page 1 holds 10, page 3 holds 5, page 99 holds none |
| `Endpoints.DefaultPageIsFirstTen` | main.py:187 | with the default page 1 and limit 10 the page is the first ten results |
| `Paginator.NonPositivePages` | main.py:204-208 | page 0 is empty; page -1 of 25 results at 10 per page is results 5..14 |
| `Access.CheckMasterKey` | main.py:179-182 | the middleware either hands the request on or raises HTTPException with status 403 and the fixed detail message |
| `Access.RefusedExactly` | main.py:179-182 | a request is refused exactly when its path extends "/buscar" and its header differs from MASTER_KEY |
| `Access.SearchEndpointsGuarded` | main.py:179-182 | /buscar_user and /buscar_alias pass exactly with the configured key |
| `Access.UnsetKeyAdmitsMissingHeader` | main.py:16 | with MASTER_KEY unset, a request without the header passes |
| `Access.OtherPathsUnchecked` | main.py:179 | paths outside "/buscar" pass whatever the header says |
| `Endpoints.UserMatches` | main.py:188-200 | the users /buscar_user lists before pagination: the SQL rows unchanged for a one-word query; otherwise snapshot users only, at most one per ranked hit |
| `Endpoints.AliasMatches` | main.py:213-224 | the aliases /buscar_alias lists before pagination: the SQL rows unchanged for a one-word query; otherwise snapshot aliases only, at most one per ranked hit |
| `Endpoints.SemanticHitsResolve` | main.py:195-199 | the ranking names only id-map positions, every id buscar returns belongs to a snapshot record, and so the semantic path drops nothing: one record per kept hit |
| `Endpoints.SemanticSearch` | main.py:194-199 | the semantic branch returns the snapshot records of buscar's ids in buscar's order, one per hit at or above the threshold |
| `Endpoints.UserMatchesCount` | main.py:190-201 | the users counted in TotalCount are the SQL rows for a one-word query, and otherwise one per kept hit, which is one per ranking position whose score reaches the threshold |
| `Endpoints.AliasMatchesCount` | main.py:215-226 | the aliases counted in TotalCount are the SQL rows for a one-word query, and otherwise one per kept hit, which is one per ranking position whose score reaches the threshold |
| `Endpoints.BuscarUser` | main.py:186-209 | the response is the page (as `Paginate` states it) of the formatted users the route selects: the SQL rows for one word, else the resolved semantic hits in score order |
| `Endpoints.BuscarAlias` | main.py:211-236 | the page of the aliases the route selects, as for users but without reshaping |
| `Endpoints.ExactPathIgnoresIndex` | main.py:191-193 | a one-word query's results do not depend on the threshold or the vector ranking |

## Left out

- MySQL access (`obtener_usuarios_desde_mysql`, `obtener_aliases_desde_mysql`, `buscar_en_users_sql`, `buscar_en_aliases_sql`): network I/O. Their results are input sequences. A failed connection while loading yields an empty list, which then aborts startup like an empty table. The `LIKE` matching and its case rules belong to the database collation, so `sqlRows` is taken as given.
- The HTTP status of a refused request: `check_master_key` raises `HTTPException(403, "Forbidden: Invalid MASTER_KEY")` from inside an `@app.middleware("http")` function (main.py:176-182). FastAPI's `HTTPException` handler sits inside the middleware stack and does not receive exceptions raised there, so as written the framework's server-error layer answers and the client gets 500 Internal Server Error, not 403. The model (`Access.CheckMasterKey`) stops at the raise and does not model the framework's response.
- The SentenceTransformer encoding and the FAISS inner-product search: foreign float vector code. The model takes the ranking as a given list of (position, score) pairs over corpus positions. The list has one pair per position because k equals the corpus size. The model does not assume that list is already ordered.
- Float arithmetic: scores are reals, with no NaN. `math.ceil(total / limit)` is modelled as the exact ceiling. Float rounding for totals above 2^53 is not modelled.
- Alias columns other than `id`, `local` and `remoto`: the model's alias rows are a projection of the `SELECT *` rows onto those three columns. The alias endpoint returns the whole rows, so its response also holds the other columns (for example `deleted_at`); the model does not carry them. User columns that `formatear_usuario` drops are not modelled either.
- Column values: the text columns are `string`, and `dominio`, `quota` and the transport id are `int`. The labelled text uses only the id and text columns. `str()` rendering is modelled only for the integer id; the text columns appear in it as they are.
- FastAPI request dispatch, `JSONResponse`, `jsonable_encoder`, the async middleware plumbing, `uvicorn.run`, and loading `DB_CONFIG` and `MASTER_KEY` from the environment: framework and configuration. `MASTER_KEY` is a parameter (`None` when unset).
- The debug `print` calls: output only.
- The default `threshold=0.3` of `buscar`: both endpoints always pass their own threshold.
- The endpoints' default thresholds (0.45 for users, 0.35 for aliases; main.py:187, 212): the threshold is a parameter of `Endpoints.BuscarUser` and `Endpoints.BuscarAlias`, and no property depends on its default value.

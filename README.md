# PHPCrawlerMysqlURLCache in Dafny

This project models the MySQL URL cache of PHPCrawl: the crawler's URL work
queue, kept in one table, `crawler_urls`. The crawler adds the links it
discovers (`addURL`, `addURLs`). Workers then take URLs from the table one at
a time (`getNextUrl`) and report them done (`markUrlAsFollowed`). The driver
asks how much work is left (`getUrlCount`, `containsURLs`). It can also reset
stale claims (`purgeCache`) or empty the queue (`clear`).

The table is held in memory as a `seq<Row>` with these columns:

- `id`
- `priority_level`
- `distinct_hash`
- the descriptor columns
- the flags `processed` and `in_process`
- `crawler_id`

Every SQL statement the class issues is a function from the old table to the
new one in module `UrlTable` (`url_table.dfy`). The class `UrlCache` in module
`MysqlUrlCache` (`url_cache.dfy`) holds the table in a field, and its methods
update that field as the PHP methods update the database. Each row moves from
pending (`processed = 0, in_process = 0`) to in process (`in_process = 1`,
set by `getNextUrl`) to processed (`processed = 1, in_process = 0`, set by
`markUrlAsFollowed`). `purgeCache` is the edge from in process back to pending.
`markUrlAsFollowed` also moves a pending row straight to processed, since its
UPDATE (line 147) matches on the hash alone and ignores both flags.
Module `ClaimLookup` (`claim_lookup.dfy`) models the row lookup inside
`getNextUrl`: once as written and once as intended (see Findings).

Assumptions the code does not state:

- Every method uses `$wpdb` without declaring `global $wpdb`. The model gives
  each statement the meaning it has on the WordPress database handle, and so
  follows the `$wpdb` statements.
- `md5` and the inherited `getUrlPriority` are fields of function type,
  `UrlCache.md5` and `UrlCache.urlPriority`. The model assumes nothing about
  either.
- The insert names neither the two flags nor `crawler_id`, so new rows get
  the column defaults. The model fixes the flag defaults at 0
  (`DefaultProcessed`, `DefaultInProcess`). The default `crawler_id` is a
  parameter of the cache (`defaultCrawlerId`), because nothing in the code
  fixes it.
- `id` is taken to be an AUTO_INCREMENT primary key: ids are unique, and a new
  row gets the next counter value (`UrlCache.Valid`, `UrlCache.nextId`).
- The flags only ever hold 0 or 1, so they are booleans.
- Several rows may tie at the maximum priority. `getNextUrl` takes whichever
  row `get_row` happens to return first, so the model may claim any of them.

The docblock of `clear` (line 67) says it removes all URLs and all priority
rules. The statement at line 70 deletes only the rows with `crawler_id = 1`.
The model follows line 70, and `ClearRemovesInsertedIff` shows which inserted
rows that reaches.

## Model

| member | source | states |
|---|---|---|
| UrlTable.CountUnprocessed | libs/UrlCache/PHPCrawlerMysqlURLCache.class.php:18 | The count of rows with `processed = 0` is at most the table size. It is 0 exactly when every row is processed, and equals the table size exactly when none is. |
| UrlTable.FirstActive | libs/UrlCache/PHPCrawlerMysqlURLCache.class.php:159 | The `LIMIT 1` scan returns some row with `processed = 0 OR in_process = 1`, and NULL exactly when no row qualifies. Without ORDER BY any qualifying row may come back; the model takes the first one, and `containsURLs` only asks whether one comes back. |
| UrlTable.MaxEligiblePriority | libs/UrlCache/PHPCrawlerMysqlURLCache.class.php:36-42 | The MAX over rows with `in_process = 0 AND processed = 0` is NULL exactly when no row qualifies. Otherwise it is the priority of some qualifying row, and no qualifying row has a higher one. |
| UrlTable.NonNull | libs/UrlCache/PHPCrawlerMysqlURLCache.class.php:115-119 | The descriptors `addURLs` passes on are exactly the non-NULL elements of the array. |
| UrlTable.SetInProcessById | libs/UrlCache/PHPCrawlerMysqlURLCache.class.php:45 | The UPDATE by id keeps the row count. Rows with that id get `in_process = 1` and no other change; all other rows are untouched. |
| UrlTable.MarkFollowed | libs/UrlCache/PHPCrawlerMysqlURLCache.class.php:147 | Rows whose `distinct_hash` is the given hash get `processed = 1, in_process = 0` and no other change. All other rows are untouched, and the row count is kept. |
| UrlTable.ResetInProcess | libs/UrlCache/PHPCrawlerMysqlURLCache.class.php:174 | Every row gets `in_process = 0`; no other field changes, and the row count is kept. |
| UrlTable.DeleteByCrawler | libs/UrlCache/PHPCrawlerMysqlURLCache.class.php:70 | A row survives the DELETE exactly when it was in the table with another `crawler_id`. |
| UrlTable.InsertAddsOnePending | libs/UrlCache/PHPCrawlerMysqlURLCache.class.php:88-102 | Under the assumed column defaults, a freshly inserted row is eligible for `getNextUrl`, and `getUrlCount` grows by exactly one. |
| UrlTable.SetInProcessKeepsCount | libs/UrlCache/PHPCrawlerMysqlURLCache.class.php:18 | `getUrlCount` counts in-process rows, so flagging a row in process leaves it unchanged. |
| UrlTable.ResetKeepsCount | libs/UrlCache/PHPCrawlerMysqlURLCache.class.php:174 | `purgeCache` leaves `getUrlCount` unchanged. |
| UrlTable.MarkFollowedNeverRaisesCount | libs/UrlCache/PHPCrawlerMysqlURLCache.class.php:147 | `markUrlAsFollowed` never raises `getUrlCount`. |
| UrlTable.MarkFollowedLowersCount | libs/UrlCache/PHPCrawlerMysqlURLCache.class.php:147 | `markUrlAsFollowed` strictly lowers `getUrlCount` when some unprocessed row has the hash. |
| UrlTable.MarkFollowedRetiresHash | libs/UrlCache/PHPCrawlerMysqlURLCache.class.php:147 | After `markUrlAsFollowed`, no row with that hash is eligible or counts as work for `containsURLs`. |
| UrlTable.ResetIdempotent | libs/UrlCache/PHPCrawlerMysqlURLCache.class.php:172-175 | Calling `purgeCache` twice leaves the same table as calling it once. |
| UrlTable.ResetMakesUnprocessedEligible | libs/UrlCache/PHPCrawlerMysqlURLCache.class.php:172-175 | After `purgeCache`, a row is eligible exactly when it is unprocessed, and no row is both processed and in process. |
| UrlTable.ContainsIffCountPositive | libs/UrlCache/PHPCrawlerMysqlURLCache.class.php:159-166 | When no row is both processed and in process, `containsURLs` finds a row exactly when `getUrlCount` is positive. |
| UrlTable.ClaimByIdTouchesOneRow | libs/UrlCache/PHPCrawlerMysqlURLCache.class.php:45 | With unique ids, the UPDATE by the claimed row's id sets `in_process` on that row alone. |
| UrlTable.ClaimKeepsKeysAndFlags | libs/UrlCache/PHPCrawlerMysqlURLCache.class.php:45 | Flagging one row in process keeps every id in place, so ids stay unique and below the AUTO_INCREMENT counter. It keeps the flags consistent when the row was eligible. |
| UrlTable.ClaimIsExclusiveAndMonotone | libs/UrlCache/PHPCrawlerMysqlURLCache.class.php:36-46 | A second claim never returns the row the first one claimed. Its priority is never higher than the first claim's. |
| UrlTable.ClaimLowersEligible | libs/UrlCache/PHPCrawlerMysqlURLCache.class.php:45 | Each claim lowers the number of eligible rows by exactly one. |
| UrlTable.DeleteKeepsUniqueIds | libs/UrlCache/PHPCrawlerMysqlURLCache.class.php:70 | The DELETE of `clear` keeps ids unique. |
| UrlTable.DeleteByCrawlerSnoc | libs/UrlCache/PHPCrawlerMysqlURLCache.class.php:70 | The DELETE keeps each surviving row once and in table order: a row added at the end survives, at the end, exactly when its `crawler_id` differs. |
| UrlTable.ClearRemovesInsertedIff | libs/UrlCache/PHPCrawlerMysqlURLCache.class.php:70 | `clear` deletes a row inserted by `addURL` exactly when the table's default `crawler_id` is 1. |
| UrlTable.NonNullSnoc | libs/UrlCache/PHPCrawlerMysqlURLCache.class.php:116-119 | Adding one array element adds one descriptor, at the end, exactly when that element is not NULL. Array order is kept. |
| MysqlUrlCache.UrlCache.GetUrlCount | libs/UrlCache/PHPCrawlerMysqlURLCache.class.php:16-19 | `getUrlCount` is at most the number of rows. It is 0 exactly when every row is processed. |
| MysqlUrlCache.UrlCache.ContainsUrls | libs/UrlCache/PHPCrawlerMysqlURLCache.class.php:156-167 | `containsURLs` is true exactly when some row has `processed = 0` or `in_process = 1`. |
| MysqlUrlCache.UrlCache.GetNextUrl | libs/UrlCache/PHPCrawlerMysqlURLCache.class.php:27-57 | With no eligible row, it returns NULL and leaves the table unchanged. Otherwise it claims one eligible row of maximal priority, sets only that row's `in_process`, and returns that row's descriptor. Ids stay unique, and consistent flags stay consistent. |
| MysqlUrlCache.UrlCache.Clear | libs/UrlCache/PHPCrawlerMysqlURLCache.class.php:69-71 | Afterwards no row has `crawler_id = 1`, and every row with another `crawler_id` remains. |
| MysqlUrlCache.UrlCache.AddUrl | libs/UrlCache/PHPCrawlerMysqlURLCache.class.php:78-103 | NULL changes nothing. Otherwise it appends one row with the next id, `md5(url_rebuild)` as hash, `getUrlPriority(url_rebuild)` as priority and the descriptor copied unchanged. |
| MysqlUrlCache.UrlCache.NewRowsPending | libs/UrlCache/PHPCrawlerMysqlURLCache.class.php:88-102 | Under the assumed column defaults, every row `addURLs` inserts is pending, so appending them keeps the flags consistent. |
| MysqlUrlCache.UrlCache.AddUrls | libs/UrlCache/PHPCrawlerMysqlURLCache.class.php:110-137 | It appends exactly the rows `addURL` inserts for the non-NULL elements, in array order, with consecutive ids. |
| MysqlUrlCache.UrlCache.MarkUrlAsFollowed | libs/UrlCache/PHPCrawlerMysqlURLCache.class.php:144-149 | It applies the hash UPDATE with `md5(url_rebuild)` of the given descriptor. The row count and every id stay the same, and consistent flags stay consistent. |
| MysqlUrlCache.UrlCache.PurgeCache | libs/UrlCache/PHPCrawlerMysqlURLCache.class.php:172-175 | It clears `in_process` on every row and changes nothing else. Afterwards no row is both processed and in process. |
| ClaimLookup.LookupIntended | libs/UrlCache/PHPCrawlerMysqlURLCache.class.php:36-43 | The lookup at the maximal level finds exactly the rows `getNextUrl` may claim: eligible and of maximal priority. It comes back empty exactly when no row is eligible. |
| ClaimLookup.LookupAtFetchedLevel | libs/UrlCache/PHPCrawlerMysqlURLCache.class.php:34-43 | The lookup at the level fetched at line 34 equals the intended one when that level is the maximum over eligible rows. At any other level, no row it finds is claimable. |
| ClaimLookup.AsWrittenMissesEligibleRow | libs/UrlCache/PHPCrawlerMysqlURLCache.class.php:43 | A table with one eligible row at priority 5, looked up at level 3: the lookup finds nothing. |
| ClaimLookup.AsWrittenPicksLowerPriority | libs/UrlCache/PHPCrawlerMysqlURLCache.class.php:43 | Eligible rows at 5 and 3, looked up at level 3: the row found is not of maximal priority. |

## Left out

- Transactions: the model leaves out `START TRANSACTION`, `COMMIT` and `BEGIN EXCLUSIVE TRANSACTION`, including the commit every 1000 URLs in `addURLs` (lines 29-30, 40, 46, 51, 113, 121-125, 128). They concern atomicity against a shared MySQL server, and every operation here runs alone.
- Concurrency: concurrent workers, exclusive claims across workers, timestamps and stale-claim timeouts are not modelled. The code has none of the last two.
- The `PDO` statements in `getNextUrl` (lines 30, 33-34, 49, 51) repeat the `$wpdb` path against another handle and table. The model follows the `$wpdb` path; Findings covers the one place where a `PDO` result leaks into it.
- `PHPCrawlerBenchmark::start`/`stop` are profiling side effects and are left out.
- `ANALYZE TABLE`, the `db_analyzed` flag and `closeCursor` (lines 129-134) tune the database and are left out.
- `getAllURLs`, `cleanup` and the constructor have empty bodies. The Dafny constructor only binds the table, the AUTO_INCREMENT counter, the two functions and the default `crawler_id`.
- The table name comes from `{$wpdb->prerfix}` at line 43 (misspelt). The model has one table, `crawler_urls`.
- The insert keys at lines 90-98 carry a leading `:`, left over from PDO named parameters. The model takes them as the column names without it.
- MysqlUrlCache.UrlCache.GetNextUrl: returns the stored descriptor of the claimed row. Line 56 builds a new `PHPCrawlerURLDescriptor` from six columns. It does not pass `is_redirect_url`, and it reads `link_code` and `link_text` where the insert writes `linkcode` and `linktext`. `PHPCrawlerURLDescriptor` is not part of this model.
- MysqlUrlCache.UrlCache.AddUrl: takes an optional descriptor so that the NULL check at line 79 has a case. In PHP the typed parameter already rejects NULL before that check runs.
- The model asserts no uniqueness of `distinct_hash`, because the code never checks it. Several rows may share a hash, and `markUrlAsFollowed` marks them all.
- `md5` and `getUrlPriority` are supplied functions. Hashing is a foreign call, and the priority rule lives in a base class that is not part of this model.
- Ids and priorities are unbounded integers. MySQL column widths are not modelled.

## Findings

| source | as written | input that shows it | evidently intended | confidence | as-written member | corrected member |
|---|---|---|---|---|---|---|
| libs/UrlCache/PHPCrawlerMysqlURLCache.class.php:43 | The row lookup filters on `$row["max_priority_level"]`, a field of the result fetched at line 34 from table `urls` through `$this->PDO`. It does not use `$max_priority_level`, computed from `crawler_urls` at line 36. | `crawler_urls` holds one eligible row at priority 5, and the fetched field is 3. No row matches, `$row` is NULL, no row is flagged, and a descriptor of NULL fields is returned. With a second eligible row at priority 3, that lower row is claimed instead. | Filter on `$max_priority_level`, so that the claimed row has the highest eligible priority and one is always found when any row is eligible. | not executed; high | ClaimLookup.AsWrittenMissesEligibleRow | ClaimLookup.LookupIntended |

/**
 * The table crawler_urls of the MySQL URL cache, held in memory as a sequence
 * of rows, and the SQL statements the cache issues against it, each written as
 * a function from the old table to its result.
 */
module UrlTable {

  datatype Option<+T> = None | Some(value: T)

  /** The link data a PHPCrawlerURLDescriptor carries into the table. */
  datatype Descriptor = Descriptor(
    urlRebuild: string,
    linkRaw: string,
    linkcode: string,
    linktext: string,
    referingUrl: string,
    isRedirectUrl: bool,
    urlLinkDepth: int)

  /**
   * One row of crawler_urls. The columns processed and in_process only ever
   * hold 0 or 1 and are modelled as booleans (true = 1).
   */
  datatype Row = Row(
    id: nat,
    priorityLevel: int,
    distinctHash: string,
    desc: Descriptor,
    processed: bool,
    inProcess: bool,
    crawlerId: int)

  // Column defaults assumed for the two flags the insert does not name.
  const DefaultProcessed := false
  const DefaultInProcess := false

  // The crawler_id whose rows clear() deletes.
  const ClearedCrawlerId := 1

  /** WHERE in_process = 0 AND processed = 0: a row getNextUrl may hand out. */
  predicate Eligible(r: Row) {
    !r.inProcess && !r.processed
  }

  /** WHERE processed = 0 OR in_process = 1: a row containsURLs looks for. */
  predicate Active(r: Row) {
    !r.processed || r.inProcess
  }

  /** id is the table's primary key. */
  ghost predicate UniqueIds(rows: seq<Row>) {
    forall i, j :: 0 <= i < j < |rows| ==> rows[i].id != rows[j].id
  }

  /** No row is both processed and in process; every operation keeps this. */
  ghost predicate FlagsConsistent(rows: seq<Row>) {
    forall i :: 0 <= i < |rows| && rows[i].inProcess ==> !rows[i].processed
  }

  /** A row getNextUrl may claim: eligible, and of the highest priority among eligible rows. */
  ghost predicate IsClaimable(rows: seq<Row>, k: int) {
    && 0 <= k < |rows|
    && Eligible(rows[k])
    && forall j :: 0 <= j < |rows| && Eligible(rows[j]) ==> rows[j].priorityLevel <= rows[k].priorityLevel
  }

  // ---------------------------------------------------------------------------
  // Queries

  /** SELECT COUNT(*) ... WHERE processed = 0 */
  function CountUnprocessed(rows: seq<Row>): (n: nat)
    ensures n <= |rows|
    ensures n == 0 <==> forall i :: 0 <= i < |rows| ==> rows[i].processed
    ensures n == |rows| <==> forall i :: 0 <= i < |rows| ==> !rows[i].processed
  {
    if rows == [] then 0
    else
      var rest := CountUnprocessed(rows[1..]);
      assert forall i :: 1 <= i < |rows| ==> rows[i] == rows[1..][i - 1];
      (if rows[0].processed then 0 else 1) + rest
  }

  /**
   * SELECT id ... WHERE processed = 0 OR in_process = 1 LIMIT 1. Without ORDER
   * BY the database may return any qualifying row; the model takes the first
   * one, and containsURLs only asks whether one comes back.
   */
  function FirstActive(rows: seq<Row>): (r: Option<nat>)
    ensures r.Some? ==> r.value < |rows| && Active(rows[r.value])
    ensures r.Some? ==> forall j :: 0 <= j < r.value ==> !Active(rows[j])
    ensures r.None? <==> forall i :: 0 <= i < |rows| ==> !Active(rows[i])
  {
    if rows == [] then None
    else if Active(rows[0]) then Some(0)
    else
      match FirstActive(rows[1..])
      case None =>
        assert forall i :: 1 <= i < |rows| ==> rows[i] == rows[1..][i - 1];
        None
      case Some(k) =>
        assert forall j :: 1 <= j < k + 1 ==> rows[j] == rows[1..][j - 1];
        Some(k + 1)
  }

  /** SELECT max(priority_level) ... WHERE in_process = 0 AND processed = 0; NULL when no row qualifies. */
  function MaxEligiblePriority(rows: seq<Row>): (m: Option<int>)
    ensures m.None? <==> forall i :: 0 <= i < |rows| ==> !Eligible(rows[i])
    ensures m.Some? ==> exists i :: 0 <= i < |rows| && Eligible(rows[i]) && rows[i].priorityLevel == m.value
    ensures m.Some? ==> forall i :: 0 <= i < |rows| && Eligible(rows[i]) ==> rows[i].priorityLevel <= m.value
  {
    if rows == [] then None
    else
      var rest := MaxEligiblePriority(rows[1..]);
      assert forall i :: 1 <= i < |rows| ==> rows[i] == rows[1..][i - 1];
      if !Eligible(rows[0]) then
        assert rest.Some? ==> exists i :: 0 <= i < |rows| && Eligible(rows[i]) && rows[i].priorityLevel == rest.value by {
          if rest.Some? {
            var i :| 0 <= i < |rows[1..]| && Eligible(rows[1..][i]) && rows[1..][i].priorityLevel == rest.value;
            assert rows[i + 1] == rows[1..][i];
          }
        }
        rest
      else
        match rest
        case None => Some(rows[0].priorityLevel)
        case Some(p) =>
          if p <= rows[0].priorityLevel then Some(rows[0].priorityLevel)
          else
            var i :| 0 <= i < |rows[1..]| && Eligible(rows[1..][i]) && rows[1..][i].priorityLevel == p;
            assert rows[i + 1] == rows[1..][i];
            Some(p)
  }

  /** The rows that survive a NULL check in addURLs, in array order. */
  function NonNull(urls: seq<Option<Descriptor>>): (r: seq<Descriptor>)
    ensures |r| <= |urls|
    ensures forall d :: d in r <==> Some(d) in urls
  {
    if urls == [] then []
    else
      var rest := NonNull(urls[1..]);
      assert forall u :: u in urls <==> u == urls[0] || u in urls[1..];
      match urls[0]
      case None => rest
      case Some(d) => [d] + rest
  }

  // ---------------------------------------------------------------------------
  // Statements

  /** UPDATE ... SET in_process = 1 WHERE id = id */
  function SetInProcessById(rows: seq<Row>, id: nat): (r: seq<Row>)
    ensures |r| == |rows|
    ensures forall i :: 0 <= i < |rows| && rows[i].id == id ==> r[i] == rows[i].(inProcess := true)
    ensures forall i :: 0 <= i < |rows| && rows[i].id != id ==> r[i] == rows[i]
  {
    if rows == [] then []
    else
      var rest := SetInProcessById(rows[1..], id);
      var head := if rows[0].id == id then rows[0].(inProcess := true) else rows[0];
      assert forall i :: 1 <= i < |rows| ==> ([head] + rest)[i] == rest[i - 1] && rows[i] == rows[1..][i - 1];
      [head] + rest
  }

  /** UPDATE ... SET processed = 1, in_process = 0 WHERE distinct_hash = hash */
  function MarkFollowed(rows: seq<Row>, hash: string): (r: seq<Row>)
    ensures |r| == |rows|
    ensures forall i :: 0 <= i < |rows| && rows[i].distinctHash == hash ==> r[i] == rows[i].(processed := true, inProcess := false)
    ensures forall i :: 0 <= i < |rows| && rows[i].distinctHash != hash ==> r[i] == rows[i]
  {
    if rows == [] then []
    else
      var rest := MarkFollowed(rows[1..], hash);
      var head := if rows[0].distinctHash == hash then rows[0].(processed := true, inProcess := false) else rows[0];
      assert forall i :: 1 <= i < |rows| ==> ([head] + rest)[i] == rest[i - 1] && rows[i] == rows[1..][i - 1];
      [head] + rest
  }

  /** UPDATE ... SET in_process = 0 (no WHERE clause) */
  function ResetInProcess(rows: seq<Row>): (r: seq<Row>)
    ensures |r| == |rows|
    ensures forall i :: 0 <= i < |rows| ==> r[i] == rows[i].(inProcess := false)
  {
    if rows == [] then []
    else
      var rest := ResetInProcess(rows[1..]);
      var head := rows[0].(inProcess := false);
      assert forall i :: 1 <= i < |rows| ==> ([head] + rest)[i] == rest[i - 1] && rows[i] == rows[1..][i - 1];
      [head] + rest
  }

  /** DELETE FROM ... WHERE crawler_id = crawlerId; the remaining rows keep their order. */
  function DeleteByCrawler(rows: seq<Row>, crawlerId: int): (r: seq<Row>)
    ensures |r| <= |rows|
    ensures forall row :: row in r <==> row in rows && row.crawlerId != crawlerId
  {
    if rows == [] then []
    else
      var rest := DeleteByCrawler(rows[1..], crawlerId);
      assert forall row :: row in rows <==> row == rows[0] || row in rows[1..];
      if rows[0].crawlerId == crawlerId then rest else [rows[0]] + rest
  }

  /** Deleting from a table one row longer keeps that row, at the end, exactly when its crawler_id differs. */
  lemma {:induction false} DeleteByCrawlerSnoc(rows: seq<Row>, row: Row, crawlerId: int)
    ensures DeleteByCrawler(rows + [row], crawlerId)
         == DeleteByCrawler(rows, crawlerId) + (if row.crawlerId == crawlerId then [] else [row])
  {
    if rows == [] {
      assert rows + [row] == [row];
      assert [row][1..] == [];
    } else {
      assert (rows + [row])[1..] == rows[1..] + [row];
      DeleteByCrawlerSnoc(rows[1..], row, crawlerId);
    }
  }

  /**
   * The row INSERT INTO crawler_urls writes for descriptor d: the hash and
   * priority computed from url_rebuild, the descriptor copied, the flags and
   * crawler_id left to the column defaults.
   */
  function InsertedRow(id: nat, d: Descriptor, md5: string -> string, urlPriority: string -> int, defaultCrawlerId: int): Row
  {
    Row(id, urlPriority(d.urlRebuild), md5(d.urlRebuild), d, DefaultProcessed, DefaultInProcess, defaultCrawlerId)
  }

  // ---------------------------------------------------------------------------
  // Lemmas

  /** COUNT distributes over the concatenation of two tables. */
  lemma {:induction false} CountUnprocessedAppend(s: seq<Row>, t: seq<Row>)
    ensures CountUnprocessed(s + t) == CountUnprocessed(s) + CountUnprocessed(t)
  {
    if s == [] {
      assert s + t == t;
    } else {
      assert (s + t)[1..] == s[1..] + t;
      CountUnprocessedAppend(s[1..], t);
    }
  }

  /** A freshly inserted row is unprocessed, eligible, and counted by getUrlCount. */
  lemma InsertAddsOnePending(rows: seq<Row>, id: nat, d: Descriptor, md5: string -> string, urlPriority: string -> int, defaultCrawlerId: int)
    ensures Eligible(InsertedRow(id, d, md5, urlPriority, defaultCrawlerId))
    ensures CountUnprocessed(rows + [InsertedRow(id, d, md5, urlPriority, defaultCrawlerId)]) == CountUnprocessed(rows) + 1
  {
    var row := InsertedRow(id, d, md5, urlPriority, defaultCrawlerId);
    CountUnprocessedAppend(rows, [row]);
    assert [row][1..] == [];
  }

  /** Setting in_process never changes getUrlCount: in-process rows are still counted. */
  lemma {:induction false} SetInProcessKeepsCount(rows: seq<Row>, id: nat)
    ensures CountUnprocessed(SetInProcessById(rows, id)) == CountUnprocessed(rows)
  {
    if rows != [] {
      var r := SetInProcessById(rows, id);
      assert r[1..] == SetInProcessById(rows[1..], id);
      SetInProcessKeepsCount(rows[1..], id);
    }
  }

  /** purgeCache never changes getUrlCount. */
  lemma {:induction false} ResetKeepsCount(rows: seq<Row>)
    ensures CountUnprocessed(ResetInProcess(rows)) == CountUnprocessed(rows)
  {
    if rows != [] {
      var r := ResetInProcess(rows);
      assert r[1..] == ResetInProcess(rows[1..]);
      ResetKeepsCount(rows[1..]);
    }
  }

  /** markUrlAsFollowed never raises getUrlCount. */
  lemma {:induction false} MarkFollowedNeverRaisesCount(rows: seq<Row>, hash: string)
    ensures CountUnprocessed(MarkFollowed(rows, hash)) <= CountUnprocessed(rows)
  {
    if rows != [] {
      var r := MarkFollowed(rows, hash);
      assert r[1..] == MarkFollowed(rows[1..], hash);
      MarkFollowedNeverRaisesCount(rows[1..], hash);
    }
  }

  /** markUrlAsFollowed lowers getUrlCount when some unprocessed row, row k, has the hash. */
  lemma {:induction false} MarkFollowedLowersCount(rows: seq<Row>, hash: string, k: nat)
    requires k < |rows| && rows[k].distinctHash == hash && !rows[k].processed
    ensures CountUnprocessed(MarkFollowed(rows, hash)) < CountUnprocessed(rows)
  {
    var r := MarkFollowed(rows, hash);
    assert r[1..] == MarkFollowed(rows[1..], hash);
    if k == 0 {
      MarkFollowedNeverRaisesCount(rows[1..], hash);
    } else {
      MarkFollowedLowersCount(rows[1..], hash, k - 1);
    }
  }

  /** After markUrlAsFollowed no row with that hash is eligible or counted as work left. */
  lemma MarkFollowedRetiresHash(rows: seq<Row>, hash: string)
    ensures forall i :: 0 <= i < |rows| && rows[i].distinctHash == hash ==>
      !Eligible(MarkFollowed(rows, hash)[i]) && !Active(MarkFollowed(rows, hash)[i])
  {
  }

  /** purgeCache is idempotent. */
  lemma ResetIdempotent(rows: seq<Row>)
    ensures ResetInProcess(ResetInProcess(rows)) == ResetInProcess(rows)
  {
    var once := ResetInProcess(rows);
    var twice := ResetInProcess(once);
    assert forall i :: 0 <= i < |rows| ==> twice[i] == once[i];
  }

  /** After purgeCache every unprocessed row is eligible for getNextUrl again. */
  lemma ResetMakesUnprocessedEligible(rows: seq<Row>)
    ensures FlagsConsistent(ResetInProcess(rows))
    ensures forall i :: 0 <= i < |rows| ==> (Eligible(ResetInProcess(rows)[i]) <==> !rows[i].processed)
  {
  }

  /**
   * With the flags consistent, containsURLs holds exactly when getUrlCount is
   * positive: a row in process is always an unprocessed row.
   */
  lemma ContainsIffCountPositive(rows: seq<Row>)
    requires FlagsConsistent(rows)
    ensures FirstActive(rows).Some? <==> CountUnprocessed(rows) > 0
  {
    if FirstActive(rows).Some? {
      var k := FirstActive(rows).value;
      assert !rows[k].processed;
    }
  }

  /** The table after row k alone is flagged in process. */
  function Claimed(rows: seq<Row>, k: nat): seq<Row>
    requires k < |rows|
  {
    rows[k := rows[k].(inProcess := true)]
  }

  /** The UPDATE by id that getNextUrl issues for row k changes row k alone when ids are unique. */
  lemma ClaimByIdTouchesOneRow(rows: seq<Row>, k: nat)
    requires UniqueIds(rows) && k < |rows|
    ensures SetInProcessById(rows, rows[k].id) == Claimed(rows, k)
  {
    var r := SetInProcessById(rows, rows[k].id);
    var c := Claimed(rows, k);
    forall i | 0 <= i < |rows|
      ensures r[i] == c[i]
    {
      if i != k {
        assert rows[i].id != rows[k].id;
      }
    }
  }

  /**
   * Flagging row k in process keeps every id where it was, so the ids stay
   * unique and below any bound they were below; the flags stay consistent
   * when row k was eligible.
   */
  lemma ClaimKeepsKeysAndFlags(rows: seq<Row>, k: nat, bound: nat)
    requires k < |rows|
    ensures UniqueIds(rows) ==> UniqueIds(Claimed(rows, k))
    ensures (forall i :: 0 <= i < |rows| ==> rows[i].id < bound) ==>
      forall i :: 0 <= i < |rows| ==> Claimed(rows, k)[i].id < bound
    ensures Eligible(rows[k]) && FlagsConsistent(rows) ==> FlagsConsistent(Claimed(rows, k))
  {
    var c := Claimed(rows, k);
    assert forall i :: 0 <= i < |rows| ==> c[i].id == rows[i].id && (i != k ==> c[i] == rows[i]);
  }

  /**
   * A claim removes exactly one row from the eligible set, so repeated
   * getNextUrl calls with no purge in between hand out each row at most once
   * and the next claim's priority is never higher than the last.
   */
  lemma ClaimIsExclusiveAndMonotone(rows: seq<Row>, k: nat, k': nat)
    requires IsClaimable(rows, k)
    requires IsClaimable(Claimed(rows, k), k')
    ensures k' != k
    ensures rows[k'].priorityLevel <= rows[k].priorityLevel
  {
    assert Eligible(rows[k']);
  }

  /** The number of rows getNextUrl could still hand out. */
  function CountEligible(rows: seq<Row>): (n: nat)
    ensures n <= CountUnprocessed(rows)
  {
    if rows == [] then 0
    else (if Eligible(rows[0]) then 1 else 0) + CountEligible(rows[1..])
  }

  /** Each claim lowers the number of eligible rows by exactly one. */
  lemma {:induction false} ClaimLowersEligible(rows: seq<Row>, k: nat)
    requires k < |rows| && Eligible(rows[k])
    ensures CountEligible(Claimed(rows, k)) == CountEligible(rows) - 1
  {
    var after := Claimed(rows, k);
    if k == 0 {
      assert after[1..] == rows[1..];
    } else {
      assert after[1..] == Claimed(rows[1..], k - 1);
      ClaimLowersEligible(rows[1..], k - 1);
    }
  }

  /** Deleting rows keeps the primary key unique. */
  lemma {:induction false} DeleteKeepsUniqueIds(rows: seq<Row>, crawlerId: int)
    requires UniqueIds(rows)
    ensures UniqueIds(DeleteByCrawler(rows, crawlerId))
  {
    if rows != [] {
      var tail := rows[1..];
      var rest := DeleteByCrawler(tail, crawlerId);
      assert UniqueIds(tail);
      DeleteKeepsUniqueIds(tail, crawlerId);
      if rows[0].crawlerId != crawlerId {
        assert forall row :: row in rest ==> row.id != rows[0].id by {
          forall row | row in rest
            ensures row.id != rows[0].id
          {
            assert row in tail;
            var m :| 0 <= m < |tail| && tail[m] == row;
            assert rows[m + 1] == row;
          }
        }
        var r := [rows[0]] + rest;
        forall i, j | 0 <= i < j < |r|
          ensures r[i].id != r[j].id
        {
          if i == 0 {
            assert r[j] == rest[j - 1];
          } else {
            assert r[i] == rest[i - 1] && r[j] == rest[j - 1];
          }
        }
      }
    }
  }

  /**
   * clear() removes a row added by addURL exactly when the table's default
   * crawler_id is the one it deletes.
   */
  lemma ClearRemovesInsertedIff(rows: seq<Row>, id: nat, d: Descriptor, md5: string -> string, urlPriority: string -> int, defaultCrawlerId: int)
    ensures var row := InsertedRow(id, d, md5, urlPriority, defaultCrawlerId);
      row in DeleteByCrawler(rows + [row], ClearedCrawlerId) <==> defaultCrawlerId != ClearedCrawlerId
  {
    var row := InsertedRow(id, d, md5, urlPriority, defaultCrawlerId);
    assert row in rows + [row];
  }

  /** NonNull grows by one element exactly when the appended array element is not NULL. */
  lemma {:induction false} NonNullSnoc(urls: seq<Option<Descriptor>>, u: Option<Descriptor>)
    ensures NonNull(urls + [u]) == NonNull(urls) + (if u.Some? then [u.value] else [])
  {
    if urls == [] {
      assert [u][1..] == [];
    } else {
      assert (urls + [u])[1..] == urls[1..] + [u];
      NonNullSnoc(urls[1..], u);
    }
  }
}

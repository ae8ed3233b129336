/**
 * PHPCrawlerMysqlURLCache: the crawler's URL work queue. The object holds the
 * table crawler_urls (its rows and its AUTO_INCREMENT counter) and issues one
 * or two statements per method against it.
 */
module MysqlUrlCache {
  import opened UrlTable
  import opened ClaimLookup

  class UrlCache {
    // md5() and the inherited getUrlPriority(): supplied, not interpreted.
    const md5: string -> string
    const urlPriority: string -> int
    // The crawler_id the table gives a row the insert does not set it on.
    const defaultCrawlerId: int

    var rows: seq<Row>
    // The next id AUTO_INCREMENT will hand out.
    var nextId: nat

    /** id is a primary key filled by AUTO_INCREMENT. */
    ghost predicate Valid()
      reads this
    {
      && UniqueIds(rows)
      && forall i :: 0 <= i < |rows| ==> rows[i].id < nextId
    }

    /** The cache over an existing table. */
    constructor (md5: string -> string, urlPriority: string -> int, defaultCrawlerId: int,
                 table: seq<Row>, autoIncrement: nat)
      requires UniqueIds(table)
      requires forall i :: 0 <= i < |table| ==> table[i].id < autoIncrement
      ensures Valid()
      ensures this.md5 == md5 && this.urlPriority == urlPriority && this.defaultCrawlerId == defaultCrawlerId
      ensures rows == table && nextId == autoIncrement
    {
      this.md5 := md5;
      this.urlPriority := urlPriority;
      this.defaultCrawlerId := defaultCrawlerId;
      rows := table;
      nextId := autoIncrement;
    }

    /** The row addURL inserts for d under the given id. */
    function NewRow(id: nat, d: Descriptor): Row {
      InsertedRow(id, d, md5, urlPriority, defaultCrawlerId)
    }

    /** The rows addURLs inserts for descs, with consecutive ids from firstId. */
    function NewRows(firstId: nat, descs: seq<Descriptor>): seq<Row> {
      seq(|descs|, j requires 0 <= j < |descs| => NewRow(firstId + j, descs[j]))
    }

    /** Inserting one more descriptor appends one row with the next id. */
    lemma NewRowsSnoc(firstId: nat, descs: seq<Descriptor>, d: Descriptor)
      ensures NewRows(firstId, descs + [d]) == NewRows(firstId, descs) + [NewRow(firstId + |descs|, d)]
    {
    }

    /** The same, seen after the rows already in the table. */
    lemma AppendNewRow(prefix: seq<Row>, firstId: nat, descs: seq<Descriptor>, d: Descriptor)
      ensures prefix + NewRows(firstId, descs + [d]) == prefix + NewRows(firstId, descs) + [NewRow(firstId + |descs|, d)]
    {
      NewRowsSnoc(firstId, descs, d);
    }

    /** Rows inserted by addURLs are pending, so they keep the flags consistent. */
    lemma NewRowsPending(prefix: seq<Row>, firstId: nat, descs: seq<Descriptor>)
      ensures forall j :: 0 <= j < |descs| ==> Eligible(NewRows(firstId, descs)[j])
      ensures FlagsConsistent(prefix) ==> FlagsConsistent(prefix + NewRows(firstId, descs))
    {
      var added := NewRows(firstId, descs);
      assert forall i :: |prefix| <= i < |prefix + added| ==> (prefix + added)[i] == added[i - |prefix|];
    }

    /** getUrlCount: the number of rows not yet processed, in-process rows included. */
    function GetUrlCount(): (n: nat)
      reads this
      ensures n <= |rows|
      ensures n == 0 <==> forall i :: 0 <= i < |rows| ==> rows[i].processed
    {
      CountUnprocessed(rows)
    }

    /** containsURLs: whether some row is unprocessed or in process. */
    predicate ContainsUrls()
      reads this
      ensures ContainsUrls() <==> exists i :: 0 <= i < |rows| && Active(rows[i])
    {
      FirstActive(rows).Some?
    }

    /**
     * getNextUrl: claim an eligible row of maximal priority (any one of them
     * when several tie), mark it in process and return its descriptor; return
     * NULL and leave the table alone when no row is eligible.
     */
    method GetNextUrl() returns (next: Option<Descriptor>, ghost claimed: int)
      requires Valid()
      modifies this
      ensures Valid() && nextId == old(nextId)
      ensures (forall i :: 0 <= i < |old(rows)| ==> !Eligible(old(rows)[i])) ==> next == None && rows == old(rows)
      ensures (exists i :: 0 <= i < |old(rows)| && Eligible(old(rows)[i])) ==>
        && IsClaimable(old(rows), claimed)
        && next == Some(old(rows)[claimed].desc)
        && rows == Claimed(old(rows), claimed)
      ensures FlagsConsistent(old(rows)) ==> FlagsConsistent(rows)
    {
      var maxPriority := MaxEligiblePriority(rows);
      if maxPriority.None? {
        return None, -1;
      }
      // The rows at the maximal level; the first match is in no fixed order,
      // so any one of them may come back.
      var found := LookupIntended(rows);
      var k :| k in found;
      var row := rows[k];
      ghost var before := rows;
      rows := SetInProcessById(rows, row.id);
      assert && IsClaimable(before, k)
             && rows == Claimed(before, k)
             && Valid()
             && (FlagsConsistent(before) ==> FlagsConsistent(rows)) by {
        ClaimByIdTouchesOneRow(before, k);
        ClaimKeepsKeysAndFlags(before, k, nextId);
      }
      next, claimed := Some(row.desc), k;
    }

    /** clear: delete the rows of crawler 1; rows of other crawlers stay. */
    method Clear()
      requires Valid()
      modifies this
      ensures Valid() && nextId == old(nextId)
      ensures rows == DeleteByCrawler(old(rows), ClearedCrawlerId)
      ensures forall i :: 0 <= i < |rows| ==> rows[i].crawlerId != ClearedCrawlerId
      ensures forall r :: r in old(rows) && r.crawlerId != ClearedCrawlerId ==> r in rows
      ensures FlagsConsistent(old(rows)) ==> FlagsConsistent(rows)
    {
      DeleteKeepsUniqueIds(rows, ClearedCrawlerId);
      rows := DeleteByCrawler(rows, ClearedCrawlerId);
    }

    /** addURL: insert one row for a non-NULL descriptor; NULL is ignored. */
    method AddUrl(d: Option<Descriptor>)
      requires Valid()
      modifies this
      ensures Valid()
      ensures d == None ==> rows == old(rows) && nextId == old(nextId)
      ensures d != None ==> rows == old(rows) + [NewRow(old(nextId), d.value)] && nextId == old(nextId) + 1
      ensures d != None ==>
        && rows[|rows| - 1].distinctHash == md5(d.value.urlRebuild)
        && rows[|rows| - 1].priorityLevel == urlPriority(d.value.urlRebuild)
        && rows[|rows| - 1].desc == d.value
      ensures FlagsConsistent(old(rows)) ==> FlagsConsistent(rows)
    {
      if d == None {
        return;
      }
      var mapKey := md5(d.value.urlRebuild);
      var priorityLevel := urlPriority(d.value.urlRebuild);
      rows := rows + [Row(nextId, priorityLevel, mapKey, d.value, DefaultProcessed, DefaultInProcess, defaultCrawlerId)];
      nextId := nextId + 1;
    }

    /** addURLs: addURL once for each non-NULL element, in array order. */
    method AddUrls(urls: seq<Option<Descriptor>>)
      requires Valid()
      modifies this
      ensures Valid()
      ensures rows == old(rows) + NewRows(old(nextId), NonNull(urls))
      ensures nextId == old(nextId) + |NonNull(urls)|
      ensures FlagsConsistent(old(rows)) ==> FlagsConsistent(rows)
    {
      ghost var rows0, id0 := rows, nextId;
      for x := 0 to |urls|
        invariant Valid()
        invariant rows == rows0 + NewRows(id0, NonNull(urls[..x]))
        invariant nextId == id0 + |NonNull(urls[..x])|
      {
        ghost var before := NonNull(urls[..x]);
        assert NonNull(urls[..x + 1]) == before + (if urls[x] != None then [urls[x].value] else []) by {
          assert urls[..x + 1] == urls[..x] + [urls[x]];
          NonNullSnoc(urls[..x], urls[x]);
        }
        if urls[x] != None {
          AddUrl(urls[x]);
          AppendNewRow(rows0, id0, before, urls[x].value);
        } else {
          assert before + [] == before;
        }
      }
      assert urls[..|urls|] == urls;
      NewRowsPending(rows0, id0, NonNull(urls));
    }

    /** markUrlAsFollowed: mark every row with the descriptor's hash processed and not in process. */
    method MarkUrlAsFollowed(d: Descriptor)
      requires Valid()
      modifies this
      ensures Valid() && nextId == old(nextId)
      ensures rows == MarkFollowed(old(rows), md5(d.urlRebuild))
      ensures FlagsConsistent(old(rows)) ==> FlagsConsistent(rows)
    {
      var hash := md5(d.urlRebuild);
      rows := MarkFollowed(rows, hash);
    }

    /** purgeCache: set in_process to 0 on every row. */
    method PurgeCache()
      requires Valid()
      modifies this
      ensures Valid() && nextId == old(nextId)
      ensures rows == ResetInProcess(old(rows))
      ensures FlagsConsistent(rows)
    {
      rows := ResetInProcess(rows);
    }
  }
}

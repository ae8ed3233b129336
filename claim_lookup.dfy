/**
 * The row lookup inside getNextUrl. It selects the eligible rows at one
 * priority level. The level it uses decides whether the claimed row has the
 * highest priority, or whether any row is found at all.
 */
module ClaimLookup {
  import opened UrlTable

  /**
   * SELECT * ... WHERE priority_level = level AND in_process = 0 AND processed = 0.
   * As written, level is the max_priority_level field of a result fetched
   * earlier through another connection from another table; nothing ties that
   * value to the maximum over crawler_urls.
   */
  function LookupAtLevel(rows: seq<Row>, level: int): set<nat> {
    set i | 0 <= i < |rows| && Eligible(rows[i]) && rows[i].priorityLevel == level
  }

  /**
   * The lookup as intended: at the maximum priority among eligible rows. It
   * finds exactly the rows getNextUrl may claim, and it comes back empty only
   * when no row is eligible.
   */
  function LookupIntended(rows: seq<Row>): (found: set<nat>)
    ensures forall k :: k in found <==> IsClaimable(rows, k)
    ensures found == {} <==> forall i :: 0 <= i < |rows| ==> !Eligible(rows[i])
  {
    match MaxEligiblePriority(rows)
    case None => {}
    case Some(level) =>
      var i :| 0 <= i < |rows| && Eligible(rows[i]) && rows[i].priorityLevel == level;
      assert i in LookupAtLevel(rows, level);
      LookupAtLevel(rows, level)
  }

  /**
   * The lookup at the fetched level agrees with the intended one when the
   * fetched level is the maximum over eligible rows. At any other level, no
   * row it finds is one getNextUrl should claim.
   */
  lemma LookupAtFetchedLevel(rows: seq<Row>, fetchedLevel: int)
    ensures MaxEligiblePriority(rows) == Some(fetchedLevel) ==> LookupAtLevel(rows, fetchedLevel) == LookupIntended(rows)
    ensures MaxEligiblePriority(rows) != Some(fetchedLevel) ==>
      forall k :: k in LookupAtLevel(rows, fetchedLevel) ==> !IsClaimable(rows, k)
  {
    var m := MaxEligiblePriority(rows);
    if m != Some(fetchedLevel) {
      forall k | k in LookupAtLevel(rows, fetchedLevel)
        ensures !IsClaimable(rows, k)
      {
        assert m.Some?;
        var i :| 0 <= i < |rows| && Eligible(rows[i]) && rows[i].priorityLevel == m.value;
        assert rows[k].priorityLevel < rows[i].priorityLevel;
      }
    }
  }

  /**
   * As written, the lookup can come back empty while an eligible row exists.
   * $row is then NULL, no row is flagged, and a descriptor built from NULL
   * fields is still returned.
   */
  lemma AsWrittenMissesEligibleRow(d: Descriptor)
    ensures var rows := [Row(7, 5, "h", d, false, false, 1)];
      && MaxEligiblePriority(rows) == Some(5)
      && LookupAtLevel(rows, 3) == {}
  {
    var rows := [Row(7, 5, "h", d, false, false, 1)];
    assert Eligible(rows[0]);
    assert forall i :: i in LookupAtLevel(rows, 3) ==> i == 0;
  }

  /** As written, the lookup can return a row below the maximum priority. */
  lemma AsWrittenPicksLowerPriority(d: Descriptor)
    ensures var rows := [Row(7, 5, "a", d, false, false, 1), Row(8, 3, "b", d, false, false, 1)];
      && 1 in LookupAtLevel(rows, 3)
      && !IsClaimable(rows, 1)
  {
    var rows := [Row(7, 5, "a", d, false, false, 1), Row(8, 3, "b", d, false, false, 1)];
    assert Eligible(rows[0]) && rows[0].priorityLevel > rows[1].priorityLevel;
  }
}

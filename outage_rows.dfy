/** The decision behind the "Recent Outages" block of the ping loop's screen:
    which entries of the outage list get a line and what that line reports. The
    ncurses calls and the string formatting are not modelled; a row keeps the
    values the line is printed from. */
module OutageRows {
  import opened OutageList

  /** What the end column of a line reports. */
  datatype Status =
    | InProgress                     // "[in progress]", no duration
    | Ended(at: int, seconds: int)   // the end time and "<seconds> seconds"

  /** One printed line: `slot` is the index of its entry in the outage list, so
      the line goes to screen row 5 + slot. */
  datatype Row = Row(slot: nat, start: int, status: Status)

  /** The per-entry decision: an entry without a start is skipped, an entry
      without an end is in progress, any other entry reports its duration. */
  function RowFor(slot: nat, o: Outage): (r: Option<Row>)
    ensures r.Some? <==> o.started.Some?
    ensures r.Some? ==> r.value.slot == slot && r.value.start == o.started.value
    ensures r.Some? ==> (r.value.status.InProgress? <==> o.ended.None?)
    ensures r.Some? && r.value.status.Ended? ==>
      r.value.status.at == o.ended.value &&
      r.value.start + r.value.status.seconds == r.value.status.at
  {
    match o.started
    case None => None
    case Some(s) =>
      match o.ended
      case None => Some(Row(slot, s, InProgress))
      case Some(e) => Some(Row(slot, s, Ended(e, e - s)))
  }

  /** The lines shown for the list `os`, top to bottom. */
  function Rows(os: seq<Outage>): seq<Row>
  {
    if os == [] then []
    else
      var last := |os| - 1;
      Rows(os[..last]) + (match RowFor(last, os[last]) case Some(row) => [row] case None => [])
  }

  /** The display loop: the header is drawn only for a non-empty list, and the
      entries are walked in list order, most recent first. */
  method RecentOutages(outages: seq<Outage>) returns (header: bool, rows: seq<Row>)
    ensures header <==> |outages| > 0
    ensures rows == Rows(outages)
  {
    header := |outages| > 0;
    rows := [];
    if header {
      for i := 0 to |outages|
        invariant rows == Rows(outages[..i])
      {
        assert outages[..i + 1][..i] == outages[..i];
        var row := RowFor(i, outages[i]);
        if row.Some? {
          rows := rows + [row.value];
        }
      }
    }
    assert outages[..|outages|] == outages;
  }

  /** Every line shown describes the entry at its slot, as RowFor decides it. */
  lemma {:induction false} RowsSound(os: seq<Outage>)
    ensures forall k :: 0 <= k < |Rows(os)| ==>
      Rows(os)[k].slot < |os| && RowFor(Rows(os)[k].slot, os[Rows(os)[k].slot]) == Some(Rows(os)[k])
  {
    if os != [] {
      var last := |os| - 1;
      RowsSound(os[..last]);
      forall k | 0 <= k < |Rows(os[..last])|
        ensures os[..last][Rows(os[..last])[k].slot] == os[Rows(os[..last])[k].slot]
      {
      }
    }
  }

  /** Some line of `rows` is the one for slot `i`. */
  ghost predicate ShownAt(rows: seq<Row>, i: nat)
  {
    exists k :: 0 <= k < |rows| && rows[k].slot == i
  }

  /** Every entry that has a start is shown on some line. */
  lemma {:induction false} RowsComplete(os: seq<Outage>)
    ensures forall i :: 0 <= i < |os| && os[i].started.Some? ==> ShownAt(Rows(os), i)
  {
    if os != [] {
      var last := |os| - 1;
      var prefix := os[..last];
      var tail := match RowFor(last, os[last]) case Some(row) => [row] case None => [];
      assert Rows(os) == Rows(prefix) + tail;
      RowsComplete(prefix);
      forall i | 0 <= i < |os| && os[i].started.Some?
        ensures ShownAt(Rows(os), i)
      {
        if i < last {
          assert prefix[i] == os[i];
          var k :| 0 <= k < |Rows(prefix)| && Rows(prefix)[k].slot == i;
          assert Rows(os)[k] == Rows(prefix)[k];
        } else {
          assert Rows(os)[|Rows(prefix)|].slot == i;
        }
      }
    }
  }

  /** Lines follow the list order: slots strictly increase down the screen, so no
      entry is shown twice. */
  lemma {:induction false} RowsInOrder(os: seq<Outage>)
    ensures forall j, k :: 0 <= j < k < |Rows(os)| ==> Rows(os)[j].slot < Rows(os)[k].slot
  {
    if os != [] {
      var last := |os| - 1;
      RowsInOrder(os[..last]);
      RowsSound(os[..last]);
    }
  }
}

/**
  The donor leaderboard of src/components/DonorLeaderboard.tsx: the donation
  rows are folded into one entry per donor id (total units, number of
  donations, and the name and blood type of that donor's first row), the
  entries are ordered by total units, largest first, and the first ten are shown.
  Fetching the rows is left to the caller; the rows arrive as a sequence.
 */
module Leaderboard {
  import opened Optional
  import opened Collections
  import opened Sorting

  /** One row of the `donations` table, as selected by the leaderboard. */
  datatype DonationRow = DonationRow(donorName: string, donorId: string, bloodType: string, units: int)

  datatype LeaderboardEntry = LeaderboardEntry(
    donorName: string, donorId: string, bloodType: string, totalUnits: int, donationCount: int)

  function UnitsOf(r: DonationRow): int { r.units }
  function TotalOf(e: LeaderboardEntry): int { e.totalUnits }
  function CountOf(e: LeaderboardEntry): int { e.donationCount }

  /** The rows of donor `id`. */
  function RowOf(id: string): DonationRow -> bool { (r: DonationRow) => r.donorId == id }

  /** The entry of donor `id`. */
  function EntryOf(id: string): LeaderboardEntry -> bool { (e: LeaderboardEntry) => e.donorId == id }

  /** The rows of donor `id`, in their order. */
  function RowsOf(rows: seq<DonationRow>, id: string): seq<DonationRow> {
    Filter(rows, RowOf(id))
  }

  // ---------------------------------------------------------------------------
  // Aggregation.

  /**
    One step of the `forEach`: the row's units and one donation go to the
    donor's entry, which is created at the end, from this row, when the donor
    has none yet.
   */
  function AddRow(entries: seq<LeaderboardEntry>, row: DonationRow): (r: seq<LeaderboardEntry>)
    ensures FindFirst(entries, EntryOf(row.donorId)).Some? ==>
              var j := FindFirst(entries, EntryOf(row.donorId)).value;
              && |r| == |entries| && r[j].donorId == row.donorId
              && r[j] == entries[j].(totalUnits := entries[j].totalUnits + row.units,
                                     donationCount := entries[j].donationCount + 1)
              && forall i :: 0 <= i < |entries| && i != j ==> r[i] == entries[i]
    ensures FindFirst(entries, EntryOf(row.donorId)).None? ==>
              && (forall i :: 0 <= i < |entries| ==> entries[i].donorId != row.donorId)
              && r == entries + [LeaderboardEntry(row.donorName, row.donorId, row.bloodType, row.units, 1)]
  {
    match FindFirst(entries, EntryOf(row.donorId))
    case Some(j) =>
      entries[j := entries[j].(totalUnits := entries[j].totalUnits + row.units,
                               donationCount := entries[j].donationCount + 1)]
    case None =>
      entries + [LeaderboardEntry(row.donorName, row.donorId, row.bloodType, row.units, 1)]
  }

  /** `Object.values(aggregated)`: the entries in the order their donors first appear. */
  function Aggregate(rows: seq<DonationRow>): seq<LeaderboardEntry>
    decreases |rows|
  {
    if |rows| == 0 then [] else AddRow(Aggregate(rows[..|rows| - 1]), rows[|rows| - 1])
  }

  /** Entry `e` sums up `own`, the rows of one donor. */
  ghost predicate Summary(e: LeaderboardEntry, own: seq<DonationRow>) {
    && |own| > 0
    && e.donorName == own[0].donorName
    && e.bloodType == own[0].bloodType
    && e.totalUnits == SumOf(own, UnitsOf)
    && e.donationCount == |own|
  }

  /** No donor has two entries. */
  ghost predicate DistinctIds(entries: seq<LeaderboardEntry>) {
    forall i, j :: 0 <= i < j < |entries| ==> entries[i].donorId != entries[j].donorId
  }

  /** Donor `id` has an entry. */
  ghost predicate HasEntry(entries: seq<LeaderboardEntry>, id: string) {
    exists i :: 0 <= i < |entries| && entries[i].donorId == id
  }

  /** Every donor of `rows` has an entry. */
  ghost predicate Covers(entries: seq<LeaderboardEntry>, rows: seq<DonationRow>) {
    forall r :: r in rows ==> HasEntry(entries, r.donorId)
  }

  /** Every entry sums up its donor's rows. */
  ghost predicate SumsUp(entries: seq<LeaderboardEntry>, rows: seq<DonationRow>) {
    forall i :: 0 <= i < |entries| ==> Summary(entries[i], RowsOf(rows, entries[i].donorId))
  }

  /** `entries` has exactly one entry per donor of `rows`, each summing up that donor's rows. */
  ghost predicate Summarises(entries: seq<LeaderboardEntry>, rows: seq<DonationRow>) {
    DistinctIds(entries) && Covers(entries, rows) && SumsUp(entries, rows)
  }

  /** A row of another donor leaves an entry's summary as it was. */
  lemma KeepSummary(e: LeaderboardEntry, rows: seq<DonationRow>, row: DonationRow)
    requires Summary(e, RowsOf(rows, e.donorId)) && row.donorId != e.donorId
    ensures Summary(e, RowsOf(rows + [row], e.donorId))
  {
    FilterAppend(rows, row, RowOf(e.donorId));
  }

  /** A row of the entry's own donor is added to its total and count. */
  lemma GrowSummary(e: LeaderboardEntry, rows: seq<DonationRow>, row: DonationRow)
    requires Summary(e, RowsOf(rows, e.donorId)) && row.donorId == e.donorId
    ensures Summary(e.(totalUnits := e.totalUnits + row.units, donationCount := e.donationCount + 1),
                    RowsOf(rows + [row], e.donorId))
  {
    var own := RowsOf(rows, e.donorId);
    FilterAppend(rows, row, RowOf(e.donorId));
    assert RowsOf(rows + [row], e.donorId) == own + [row];
    SumOfConcat(own, [row], UnitsOf);
    assert [row][1..] == [];
  }

  /** The first row of a donor without rows starts that donor's summary. */
  lemma StartSummary(rows: seq<DonationRow>, row: DonationRow)
    requires RowsOf(rows, row.donorId) == []
    ensures Summary(LeaderboardEntry(row.donorName, row.donorId, row.bloodType, row.units, 1),
                    RowsOf(rows + [row], row.donorId))
  {
    FilterAppend(rows, row, RowOf(row.donorId));
    assert RowsOf(rows + [row], row.donorId) == [row];
    assert [row][1..] == [];
  }

  /** A row of a donor who already has entry `j` is added to that entry. */
  lemma AddToExisting(entries: seq<LeaderboardEntry>, rows: seq<DonationRow>, row: DonationRow, j: nat)
    requires Summarises(entries, rows)
    requires j < |entries| && entries[j].donorId == row.donorId
    ensures var e := entries[j].(totalUnits := entries[j].totalUnits + row.units,
                                 donationCount := entries[j].donationCount + 1);
            Summarises(entries[j := e], rows + [row])
  {
    var e := entries[j].(totalUnits := entries[j].totalUnits + row.units,
                         donationCount := entries[j].donationCount + 1);
    var r, rows' := entries[j := e], rows + [row];
    forall i | 0 <= i < |r| ensures Summary(r[i], RowsOf(rows', r[i].donorId)) {
      if i == j {
        GrowSummary(entries[j], rows, row);
      } else {
        KeepSummary(entries[i], rows, row);
      }
    }
    forall x | x in rows' ensures HasEntry(r, x.donorId) {
      if x == row {
        assert r[j].donorId == x.donorId;
      } else {
        var i :| 0 <= i < |entries| && entries[i].donorId == x.donorId;
        assert r[i].donorId == x.donorId;
      }
    }
  }

  /** The first row of a new donor starts a new entry at the end. */
  lemma AddNew(entries: seq<LeaderboardEntry>, rows: seq<DonationRow>, row: DonationRow)
    requires Summarises(entries, rows)
    requires !HasEntry(entries, row.donorId)
    ensures Summarises(entries + [LeaderboardEntry(row.donorName, row.donorId, row.bloodType, row.units, 1)], rows + [row])
  {
    var e := LeaderboardEntry(row.donorName, row.donorId, row.bloodType, row.units, 1);
    var r, rows' := entries + [e], rows + [row];
    FilterNone(rows, RowOf(row.donorId));
    forall i | 0 <= i < |r| ensures Summary(r[i], RowsOf(rows', r[i].donorId)) {
      if i == |entries| {
        StartSummary(rows, row);
      } else {
        KeepSummary(entries[i], rows, row);
      }
    }
    forall x | x in rows' ensures HasEntry(r, x.donorId) {
      if x == row {
        assert r[|entries|].donorId == x.donorId;
      } else {
        var i :| 0 <= i < |entries| && entries[i].donorId == x.donorId;
        assert r[i].donorId == x.donorId;
      }
    }
  }

  /** Each step keeps the entries a summary of the rows seen so far. */
  lemma AddRowSummarises(entries: seq<LeaderboardEntry>, rows: seq<DonationRow>, row: DonationRow)
    requires Summarises(entries, rows)
    ensures Summarises(AddRow(entries, row), rows + [row])
  {
    match FindFirst(entries, EntryOf(row.donorId))
    case Some(j) =>
      AddToExisting(entries, rows, row, j);
    case None =>
      forall i | 0 <= i < |entries| ensures entries[i].donorId != row.donorId {
        assert !EntryOf(row.donorId)(entries[i]);
      }
      AddNew(entries, rows, row);
  }

  /** The aggregation has one entry per donor, summing up exactly that donor's rows. */
  lemma {:induction false} AggregateSummarises(rows: seq<DonationRow>)
    ensures Summarises(Aggregate(rows), rows)
    decreases |rows|
  {
    if |rows| > 0 {
      var init, last := rows[..|rows| - 1], rows[|rows| - 1];
      AggregateSummarises(init);
      AddRowSummarises(Aggregate(init), init, last);
      assert init + [last] == rows;
    }
  }

  /** One step adds one donation and the row's units to the sums over the entries. */
  lemma AddRowConserves(entries: seq<LeaderboardEntry>, row: DonationRow)
    ensures SumOf(AddRow(entries, row), CountOf) == SumOf(entries, CountOf) + 1
    ensures SumOf(AddRow(entries, row), TotalOf) == SumOf(entries, TotalOf) + row.units
  {
    match FindFirst(entries, EntryOf(row.donorId))
    case Some(j) =>
      var e := entries[j].(totalUnits := entries[j].totalUnits + row.units,
                           donationCount := entries[j].donationCount + 1);
      SumOfUpdate(entries, j, e, CountOf);
      SumOfUpdate(entries, j, e, TotalOf);
    case None =>
      var e := LeaderboardEntry(row.donorName, row.donorId, row.bloodType, row.units, 1);
      SumOfConcat(entries, [e], CountOf);
      SumOfConcat(entries, [e], TotalOf);
      assert [e][1..] == [];
  }

  /** Nothing is lost or counted twice: the counts add up to the rows and the totals to their units. */
  lemma {:induction false} AggregateConserves(rows: seq<DonationRow>)
    ensures SumOf(Aggregate(rows), CountOf) == |rows|
    ensures SumOf(Aggregate(rows), TotalOf) == SumOf(rows, UnitsOf)
    decreases |rows|
  {
    if |rows| > 0 {
      var init, last := rows[..|rows| - 1], rows[|rows| - 1];
      AggregateConserves(init);
      AddRowConserves(Aggregate(init), last);
      SumOfConcat(init, [last], UnitsOf);
      assert init + [last] == rows;
      assert [last][1..] == [];
    }
  }

  // ---------------------------------------------------------------------------
  // Ranking.

  /** The comparator `b.total_units - a.total_units` orders by this key, smallest first. */
  function ByTotalDescending(e: LeaderboardEntry): int { -e.totalUnits }

  /** The entries shown: sorted by total units, largest first, cut at ten. */
  function Leaderboard(rows: seq<DonationRow>): (top: seq<LeaderboardEntry>)
    ensures |top| == if |Aggregate(rows)| < 10 then |Aggregate(rows)| else 10
    ensures forall i, j :: 0 <= i < j < |top| ==> top[i].totalUnits >= top[j].totalUnits
    ensures forall e :: e in top ==> e in Aggregate(rows)
    ensures forall e, x :: e in Aggregate(rows) && e !in top && x in top ==> e.totalUnits <= x.totalUnits
  {
    var sorted := SortBy(Aggregate(rows), ByTotalDescending);
    SortByKeepsElements(Aggregate(rows), ByTotalDescending);
    var n := if |sorted| < 10 then |sorted| else 10;
    SortedPrefix(sorted, ByTotalDescending, n);
    assert sorted == sorted[..n] + sorted[n..];
    sorted[..n]
  }

  /** Every shown entry sums up its donor's rows. */
  lemma LeaderboardSummarises(rows: seq<DonationRow>)
    ensures forall e :: e in Leaderboard(rows) ==> Summary(e, RowsOf(rows, e.donorId))
  {
    AggregateSummarises(rows);
    var all := Aggregate(rows);
    forall e | e in Leaderboard(rows) ensures Summary(e, RowsOf(rows, e.donorId)) {
      var i :| 0 <= i < |all| && all[i] == e;
    }
  }

  /** No donor is shown twice. */
  lemma LeaderboardDistinct(rows: seq<DonationRow>)
    ensures NoDuplicates(Leaderboard(rows))
  {
    AggregateSummarises(rows);
    var all := Aggregate(rows);
    var sorted := SortBy(all, ByTotalDescending);
    assert NoDuplicates(all);
    NoDuplicatesCounts(all);
    NoDuplicatesCounts(sorted);
    NoDuplicatesPrefix(sorted, |Leaderboard(rows)|);
  }
}

/** Aggregation of the pasted 30-day Floodlight report by activity ID
    (`compareIngestActivityReport`, the loop over the rows of columns E:H). */
module Aggregation {
  import opened Wrappers
  import opened Text

  /** One pasted report row: activity name (E), raw activity-ID text (F), the date (G)
      already normalised to a day number (None when blank or unparseable) and the
      impressions (H, None when blank). Day numbers order like `yyyy-MM-dd` keys. */
  datatype ReportRow = ReportRow(name: string, rawId: string, day: Option<int>, imps: Option<int>)

  /** The activity ID a row is grouped under: its trimmed ID text. */
  function KeyOf(r: ReportRow): string {
    Trim(r.rawId)
  }

  /** A blank impressions cell counts as 0. */
  function ImpsOf(r: ReportRow): int {
    if r.imps.Some? then r.imps.value else 0
  }

  /** The record kept per activity ID: impression total, distinct days, earliest and
      latest day, and the kept activity name. */
  datatype Stats = Stats(sum: int, days: set<int>, first: Option<int>, last: Option<int>, anyName: string)

  const EmptyStats := Stats(0, {}, None, None, "")

  /** Folding one row into its ID's record: add the impressions, and for a dated row
      add the day and widen the first/last range; fill the name only while empty. */
  function AddRow(o: Stats, r: ReportRow): (s: Stats)
    ensures s.sum == o.sum + ImpsOf(r)
    ensures r.day.None? ==> s.days == o.days && s.first == o.first && s.last == o.last
    ensures r.day.Some? ==> s.days == o.days + {r.day.value}
    ensures r.day.Some? ==> s.first.Some? && s.last.Some? && s.first.value <= r.day.value <= s.last.value
    ensures r.day.Some? && o.first.Some? ==> s.first.value <= o.first.value
    ensures r.day.Some? && o.last.Some? ==> o.last.value <= s.last.value
    ensures r.day.Some? ==> s.first == (if o.first.Some? && o.first.value <= r.day.value then o.first else r.day)
    ensures r.day.Some? ==> s.last == (if o.last.Some? && r.day.value <= o.last.value then o.last else r.day)
    ensures o.anyName != "" ==> s.anyName == o.anyName
    ensures o.anyName == "" ==> s.anyName == r.name
  {
    var days := if r.day.Some? then o.days + {r.day.value} else o.days;
    var first := if r.day.Some? && (o.first.None? || r.day.value < o.first.value) then r.day else o.first;
    var last := if r.day.Some? && (o.last.None? || r.day.value > o.last.value) then r.day else o.last;
    Stats(o.sum + ImpsOf(r), days, first, last, if o.anyName == "" then r.name else o.anyName)
  }

  /** The record of a group of rows: every row folded in, in report order. */
  function StatsOf(rs: seq<ReportRow>): Stats {
    if rs == [] then EmptyStats else AddRow(StatsOf(rs[..|rs| - 1]), rs[|rs| - 1])
  }

  /** The rows grouped under `id`, in report order. */
  function RowsFor(rows: seq<ReportRow>, id: string): seq<ReportRow> {
    if rows == [] then []
    else
      var r := rows[|rows| - 1];
      RowsFor(rows[..|rows| - 1], id) + (if KeyOf(r) == id then [r] else [])
  }

  /** The rows with a non-empty ID, in report order. */
  function KeyedRows(rows: seq<ReportRow>): seq<ReportRow> {
    if rows == [] then []
    else
      var r := rows[|rows| - 1];
      KeyedRows(rows[..|rows| - 1]) + (if KeyOf(r) != "" then [r] else [])
  }

  /** The map's key order after one more row: a non-empty ID not seen before is appended. */
  function NextOrder(order: seq<string>, r: ReportRow): seq<string> {
    var id := KeyOf(r);
    if id == "" || id in order then order else order + [id]
  }

  /** The IDs of the aggregation map in insertion order. */
  function KeyOrder(rows: seq<ReportRow>): seq<string> {
    if rows == [] then [] else NextOrder(KeyOrder(rows[..|rows| - 1]), rows[|rows| - 1])
  }

  /** The map after one more row: rows with an empty ID are skipped. */
  ghost function NextAgg(agg: map<string, Stats>, r: ReportRow): map<string, Stats> {
    var id := KeyOf(r);
    if id == "" then agg else agg[id := AddRow(if id in agg then agg[id] else EmptyStats, r)]
  }

  /** The aggregation map after all of `rows`. */
  ghost function AggOf(rows: seq<ReportRow>): map<string, Stats> {
    if rows == [] then map[] else NextAgg(AggOf(rows[..|rows| - 1]), rows[|rows| - 1])
  }

  /** `order` and `agg` hold, for the rows in `prefix`, the record of every ID met. */
  ghost predicate Summarises(prefix: seq<ReportRow>, order: seq<string>, agg: map<string, Stats>) {
    && order == KeyOrder(prefix)
    && (forall id :: id in agg <==> id in order)
    && "" !in agg
    && forall id :: id in agg ==> agg[id] == StatsOf(RowsFor(prefix, id))
  }

  predicate Distinct(ids: seq<string>) {
    forall i, j :: 0 <= i < j < |ids| ==> ids[i] != ids[j]
  }

  // ---------------------------------------------------------------------------
  // Reference definitions: what the record of an ID should hold, stated directly.
  // ---------------------------------------------------------------------------

  /** The total of the impressions of `rs`. */
  function SumOf(rs: seq<ReportRow>): int {
    if rs == [] then 0 else ImpsOf(rs[0]) + SumOf(rs[1..])
  }

  /** The days of the dated rows of `rs`. */
  function DaysOf(rs: seq<ReportRow>): set<int> {
    set k | 0 <= k < |rs| && rs[k].day.Some? :: rs[k].day.value
  }

  /** `n` is the name of the first row of `rs` that has a non-empty name. */
  ghost predicate IsFirstName(rs: seq<ReportRow>, n: string) {
    exists k :: 0 <= k < |rs| && rs[k].name == n && n != "" && forall j :: 0 <= j < k ==> rs[j].name == ""
  }

  /** The sum of the impression totals of `ids`. */
  function TotalFor(ids: seq<string>, rows: seq<ReportRow>): int {
    if ids == [] then 0 else TotalFor(ids[..|ids| - 1], rows) + SumOf(RowsFor(rows, ids[|ids| - 1]))
  }

  // ---------------------------------------------------------------------------
  // The loop itself.
  // ---------------------------------------------------------------------------

  /** Walks the report rows once and folds each into the map. Returns the map's keys
      in insertion order and the map. */
  method Aggregate(rows: seq<ReportRow>) returns (order: seq<string>, agg: map<string, Stats>)
    ensures order == KeyOrder(rows) && agg == AggOf(rows)
    ensures forall id :: id in agg <==> id in order
    ensures forall id :: id in agg <==> id != "" && RowsFor(rows, id) != []
    ensures forall id :: id in agg ==> agg[id] == StatsOf(RowsFor(rows, id))
  {
    order, agg := [], map[];
    var i := 0;
    while i < |rows|
      invariant 0 <= i <= |rows|
      invariant order == KeyOrder(rows[..i])
      invariant agg == AggOf(rows[..i])
    {
      AggOfKeys(rows[..i]);
      order, agg := FoldRow(order, agg, rows[i]);
      AggOfStep(rows, i);
      i := i + 1;
    }
    assert rows[..i] == rows;
    AggOfMeaning(rows);
  }

  /** The body of the loop for one row: a row whose trimmed ID is empty is skipped;
      otherwise a record is created the first time its ID is met, and the row's
      impressions, day and name are folded into it. */
  method FoldRow(order: seq<string>, agg: map<string, Stats>, row: ReportRow)
    returns (order': seq<string>, agg': map<string, Stats>)
    requires forall id :: id in agg <==> id in order
    ensures order' == NextOrder(order, row) && agg' == NextAgg(agg, row)
  {
    order', agg' := order, agg;
    var id := Trim(row.rawId);
    if id != "" {
      if id !in agg' {
        agg' := agg'[id := Stats(0, {}, None, None, row.name)];
        order' := order' + [id];
      }
      var o := agg'[id];
      var sum, days, first, last, anyName := o.sum + ImpsOf(row), o.days, o.first, o.last, o.anyName;
      if row.day.Some? {
        var d := row.day.value;
        days := days + {d};
        if first.None? || d < first.value { first := Some(d); }
        if last.None? || d > last.value { last := Some(d); }
      }
      if anyName == "" && row.name != "" { anyName := row.name; }
      assert Stats(sum, days, first, last, anyName) == AddRow(if id in agg then agg[id] else EmptyStats, row);
      agg' := agg'[id := Stats(sum, days, first, last, anyName)];
    }
  }

  lemma AggOfStep(rows: seq<ReportRow>, i: nat)
    requires i < |rows|
    ensures KeyOrder(rows[..i + 1]) == NextOrder(KeyOrder(rows[..i]), rows[i])
    ensures AggOf(rows[..i + 1]) == NextAgg(AggOf(rows[..i]), rows[i])
  {
    assert rows[..i + 1][..i] == rows[..i];
  }

  lemma {:induction false} AggOfKeys(rows: seq<ReportRow>)
    ensures forall id :: id in AggOf(rows) <==> id in KeyOrder(rows)
  {
    if rows != [] {
      AggOfKeys(rows[..|rows| - 1]);
    }
  }

  /** What the aggregation map holds, stated for the method's callers. */
  lemma AggOfMeaning(rows: seq<ReportRow>)
    ensures forall id :: id in AggOf(rows) <==> id in KeyOrder(rows)
    ensures forall id :: id in AggOf(rows) <==> id != "" && RowsFor(rows, id) != []
    ensures forall id :: id in AggOf(rows) ==> AggOf(rows)[id] == StatsOf(RowsFor(rows, id))
  {
    AggOfSummarises(rows);
    KeyOrderMembers(rows);
  }

  /** The specification of the loop means what the source intends: the map's keys are
      the IDs met, in insertion order, and each holds the record of that ID's rows. */
  lemma {:induction false} AggOfSummarises(rows: seq<ReportRow>)
    ensures Summarises(rows, KeyOrder(rows), AggOf(rows))
  {
    if rows != [] {
      var prefix, r := rows[..|rows| - 1], rows[|rows| - 1];
      AggOfSummarises(prefix);
      assert rows == prefix + [r];
      var id := KeyOf(r);
      var agg1 := AggOf(rows);
      KeyOrderMembers(prefix);
      forall other | other in agg1
        ensures agg1[other] == StatsOf(RowsFor(rows, other))
      {
        RowsForSnoc(prefix, r, other);
        if other == id {
          var before := RowsFor(prefix, id);
          assert (before + [r])[..|before|] == before;
        }
      }
    }
  }

  lemma RowsForSnoc(rows: seq<ReportRow>, r: ReportRow, id: string)
    ensures KeyOf(r) == id ==> RowsFor(rows + [r], id) == RowsFor(rows, id) + [r]
    ensures KeyOf(r) != id ==> RowsFor(rows + [r], id) == RowsFor(rows, id)
  {
    assert (rows + [r])[..|rows|] == rows;
    assert RowsFor(rows, id) + [] == RowsFor(rows, id);
  }

  // ---------------------------------------------------------------------------
  // What the aggregation means.
  // ---------------------------------------------------------------------------

  /** The rows grouped under `id` are exactly the report rows whose trimmed ID is `id`. */
  lemma {:induction false} RowsForMembers(rows: seq<ReportRow>, id: string)
    ensures forall x :: x in RowsFor(rows, id) <==> x in rows && KeyOf(x) == id
    ensures |RowsFor(rows, id)| <= |rows|
  {
    if rows != [] {
      var init := rows[..|rows| - 1];
      RowsForMembers(init, id);
      assert rows == init + [rows[|rows| - 1]];
    }
  }

  /** The map's keys are distinct, non-empty, and are exactly the IDs some row carries. */
  lemma {:induction false} KeyOrderMembers(rows: seq<ReportRow>)
    ensures Distinct(KeyOrder(rows))
    ensures forall id :: id in KeyOrder(rows) <==> id != "" && RowsFor(rows, id) != []
  {
    if rows != [] {
      var init := rows[..|rows| - 1];
      KeyOrderMembers(init);
      forall id ensures id in KeyOrder(rows) <==> id != "" && RowsFor(rows, id) != [] {
        RowsForSnoc(init, rows[|rows| - 1], id);
        assert rows == init + [rows[|rows| - 1]];
      }
    }
  }

  /** Some row carrying `x` comes before every row carrying `y`. */
  ghost predicate SeenBefore(rows: seq<ReportRow>, x: string, y: string) {
    exists p :: 0 <= p < |rows| && KeyOf(rows[p]) == x && forall q :: 0 <= q <= p ==> KeyOf(rows[q]) != y
  }

  /** The map's keys are in order of first appearance: of two keys, the earlier one is
      carried by some row that comes before every row carrying the later one. */
  lemma {:induction false} KeyOrderFirstAppearance(rows: seq<ReportRow>)
    ensures forall a, b :: 0 <= a < b < |KeyOrder(rows)| ==>
              SeenBefore(rows, KeyOrder(rows)[a], KeyOrder(rows)[b])
  {
    if rows != [] {
      var init := rows[..|rows| - 1];
      var r := rows[|rows| - 1];
      KeyOrderFirstAppearance(init);
      var ko := KeyOrder(init);
      var k := KeyOrder(rows);
      assert k == NextOrder(ko, r);
      forall a, b | 0 <= a < b < |k| ensures SeenBefore(rows, k[a], k[b]) {
        assert k[a] == ko[a];
        var p: nat;
        if b < |ko| {
          assert k[b] == ko[b];
          assert SeenBefore(init, ko[a], ko[b]);
          p :| 0 <= p < |init| && KeyOf(init[p]) == ko[a] &&
               forall q :: 0 <= q <= p ==> KeyOf(init[q]) != ko[b];
        } else {
          assert k == ko + [KeyOf(r)] && k[b] == KeyOf(r);
          p := FirstAppearanceOfNewKey(init, ko[a], KeyOf(r));
        }
        assert forall q :: 0 <= q <= p ==> rows[q] == init[q];
        assert KeyOf(rows[p]) == k[a] && forall q :: 0 <= q <= p ==> KeyOf(rows[q]) != k[b];
      }
    } else {
      assert KeyOrder(rows) == [];
    }
  }

  /** A key already in the map has a row, and a key not yet in the map has none, so the
      old key's row comes before any row of the new one. */
  lemma FirstAppearanceOfNewKey(init: seq<ReportRow>, oldKey: string, newKey: string) returns (p: nat)
    requires oldKey in KeyOrder(init)
    requires newKey !in KeyOrder(init) && newKey != ""
    ensures p < |init| && KeyOf(init[p]) == oldKey
    ensures forall q :: 0 <= q <= p ==> KeyOf(init[q]) != newKey
  {
    KeyOrderMembers(init);
    assert RowsFor(init, oldKey) != [];
    assert RowsFor(init, newKey) == [];
    RowsForMembers(init, oldKey);
    RowsForMembers(init, newKey);
    var x := RowsFor(init, oldKey)[0];
    assert x in init;
    p :| 0 <= p < |init| && init[p] == x;
    forall q | 0 <= q <= p ensures KeyOf(init[q]) != newKey {
      assert init[q] in init;
    }
  }

  /** A row whose trimmed ID is empty creates no entry and changes no record. */
  lemma BlankIdRowIgnored(rows: seq<ReportRow>, r: ReportRow)
    requires KeyOf(r) == ""
    ensures KeyOrder(rows + [r]) == KeyOrder(rows)
    ensures forall id :: id != "" ==> RowsFor(rows + [r], id) == RowsFor(rows, id)
    ensures KeyedRows(rows + [r]) == KeyedRows(rows)
  {
    assert (rows + [r])[..|rows|] == rows;
    forall id | id != "" ensures RowsFor(rows + [r], id) == RowsFor(rows, id) {
      RowsForSnoc(rows, r, id);
    }
  }

  lemma {:induction false} SumOfSnoc(rs: seq<ReportRow>, r: ReportRow)
    ensures SumOf(rs + [r]) == SumOf(rs) + ImpsOf(r)
  {
    if rs != [] {
      SumOfSnoc(rs[1..], r);
      assert (rs + [r])[1..] == rs[1..] + [r];
    }
  }

  /** The kept `sum` is the total of the impressions of the rows (blank counted as 0). */
  lemma {:induction false} StatsSum(rs: seq<ReportRow>)
    ensures StatsOf(rs).sum == SumOf(rs)
  {
    if rs != [] {
      var init := rs[..|rs| - 1];
      StatsSum(init);
      SumOfSnoc(init, rs[|rs| - 1]);
      assert rs == init + [rs[|rs| - 1]];
    }
  }

  /** `days` holds exactly the dates of the dated rows, so there are no more distinct
      days than rows. */
  lemma {:induction false} StatsDays(rs: seq<ReportRow>)
    ensures StatsOf(rs).days == DaysOf(rs)
    ensures |StatsOf(rs).days| <= |rs|
  {
    if rs != [] {
      var init := rs[..|rs| - 1];
      var r := rs[|rs| - 1];
      assert rs == init + [r];
      StatsDays(init);
      DaysOfSnoc(init, r);
      var before := StatsOf(init).days;
      if r.day.Some? {
        assert |before + {r.day.value}| <= |before| + 1;
      }
    }
  }

  lemma DaysOfSnoc(rs: seq<ReportRow>, r: ReportRow)
    ensures DaysOf(rs + [r]) == DaysOf(rs) + (if r.day.Some? then {r.day.value} else {})
  {
    var all := rs + [r];
    forall d | d in DaysOf(all) ensures d in DaysOf(rs) + (if r.day.Some? then {r.day.value} else {}) {
      var k :| 0 <= k < |all| && all[k].day.Some? && all[k].day.value == d;
      if k < |rs| { assert all[k] == rs[k]; }
    }
    forall d | d in DaysOf(rs) ensures d in DaysOf(all) {
      var k :| 0 <= k < |rs| && rs[k].day.Some? && rs[k].day.value == d;
      assert all[k] == rs[k];
    }
    if r.day.Some? {
      assert all[|rs|] == r;
    }
  }

  /** `first` and `last` are set exactly when some row is dated; then `first` is the
      earliest and `last` the latest of the days, so `first <= last`. */
  lemma {:induction false} StatsFirstLast(rs: seq<ReportRow>)
    ensures StatsOf(rs).first.Some? <==> StatsOf(rs).days != {}
    ensures StatsOf(rs).last.Some? <==> StatsOf(rs).days != {}
    ensures StatsOf(rs).first.Some? ==> StatsOf(rs).first.value in StatsOf(rs).days
    ensures StatsOf(rs).last.Some? ==> StatsOf(rs).last.value in StatsOf(rs).days
    ensures forall d :: d in StatsOf(rs).days ==> StatsOf(rs).first.value <= d <= StatsOf(rs).last.value
  {
    if rs != [] {
      StatsFirstLast(rs[..|rs| - 1]);
    }
  }

  /** The kept name is empty only when every row's name is; otherwise it is the name of
      the first row that has one. */
  lemma {:induction false} StatsName(rs: seq<ReportRow>)
    ensures StatsOf(rs).anyName == "" <==> forall k :: 0 <= k < |rs| ==> rs[k].name == ""
    ensures StatsOf(rs).anyName != "" ==> IsFirstName(rs, StatsOf(rs).anyName)
  {
    if rs != [] {
      var init := rs[..|rs| - 1];
      var n := StatsOf(rs).anyName;
      StatsName(init);
      if StatsOf(init).anyName != "" {
        var k :| 0 <= k < |init| && init[k].name == n && n != "" && forall j :: 0 <= j < k ==> init[j].name == "";
        assert rs[k] == init[k];
      } else if n != "" {
        assert rs[|rs| - 1].name == n;
        assert forall j :: 0 <= j < |rs| - 1 ==> rs[j] == init[j];
      }
    }
  }

  /** Once a non-empty name is kept, later rows never replace it. */
  lemma {:induction false} NameIsKept(rs: seq<ReportRow>, more: seq<ReportRow>)
    requires StatsOf(rs).anyName != ""
    ensures StatsOf(rs + more).anyName == StatsOf(rs).anyName
    decreases |more|
  {
    if more != [] {
      var init := more[..|more| - 1];
      NameIsKept(rs, init);
      assert (rs + more)[..|rs + more| - 1] == rs + init;
    } else {
      assert rs + more == rs;
    }
  }

  lemma {:induction false} TotalForStep(ids: seq<string>, rows: seq<ReportRow>, r: ReportRow)
    requires Distinct(ids)
    ensures TotalFor(ids, rows + [r]) == TotalFor(ids, rows) + (if KeyOf(r) in ids then ImpsOf(r) else 0)
  {
    if ids != [] {
      var init := ids[..|ids| - 1];
      var id := ids[|ids| - 1];
      assert ids == init + [id];
      assert Distinct(init) by {
        forall i, j | 0 <= i < j < |init| ensures init[i] != init[j] {
          assert init[i] == ids[i] && init[j] == ids[j];
        }
      }
      assert id !in init by {
        forall i | 0 <= i < |init| ensures init[i] != id {
          assert init[i] == ids[i];
        }
      }
      TotalForStep(init, rows, r);
      RowsForSnoc(rows, r, id);
      if KeyOf(r) == id {
        SumOfSnoc(RowsFor(rows, id), r);
      }
      assert KeyOf(r) in ids <==> KeyOf(r) in init || KeyOf(r) == id;
    }
  }

  /** No impressions are lost or counted twice: the totals of all map entries add up
      to the impressions of every row that has a non-empty ID. */
  lemma {:induction false} ImpressionsConserved(rows: seq<ReportRow>)
    ensures TotalFor(KeyOrder(rows), rows) == SumOf(KeyedRows(rows))
  {
    if rows != [] {
      var init := rows[..|rows| - 1];
      var r := rows[|rows| - 1];
      var k := KeyOf(r);
      var ks := KeyOrder(init);
      assert rows == init + [r];
      ImpressionsConserved(init);
      KeyOrderMembers(init);
      TotalForStep(ks, init, r);
      assert SumOf(KeyedRows(rows)) == SumOf(KeyedRows(init)) + (if k != "" then ImpsOf(r) else 0) by {
        var kr := KeyedRows(init);
        if k != "" {
          assert KeyedRows(rows) == kr + [r];
          SumOfSnoc(kr, r);
        } else {
          assert KeyedRows(rows) == kr + [];
          assert kr + [] == kr;
        }
      }
      if k != "" && k !in ks {
        assert KeyOrder(rows) == ks + [k];
        assert TotalFor(ks + [k], rows) == TotalFor(ks, rows) + SumOf(RowsFor(rows, k)) by {
          assert (ks + [k])[..|ks|] == ks;
        }
        assert SumOf(RowsFor(rows, k)) == ImpsOf(r) by {
          RowsForSnoc(init, r, k);
          assert RowsFor(init, k) == [];
          assert [] + [r] == [r];
        }
      }
    }
  }
}

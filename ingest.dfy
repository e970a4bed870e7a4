/** The ingest entry point (`compareIngestActivityReport`): read the low-impressions
    threshold, aggregate the pasted 30-day report, write each known activity's total
    into column L of "Get Floodlight Activities", and build the health rows. */
module Ingest {
  import opened Wrappers
  import opened Text
  import opened Aggregation
  import opened Health

  /** The threshold used when cell C24 of "Run Details" holds no number. */
  const DefaultThreshold := 20

  /** What cell C24 of "Run Details" holds, as `Number(...)` sees it: empty, a number,
      or something that converts to NaN. */
  datatype ThresholdCell = Blank | Numeric(n: int) | NonNumeric

  /** An empty threshold cell is filled with "20" before it is read. */
  function SeedThreshold(cell: ThresholdCell): (c: ThresholdCell)
    ensures c != Blank
    ensures cell == Blank ==> c == Numeric(DefaultThreshold)
    ensures cell != Blank ==> c == cell
  {
    if cell == Blank then Numeric(DefaultThreshold) else cell
  }

  /** `ensureLowImpsThreshold_`: the number in the (seeded) cell, or 20 when it is not one. */
  function Threshold(cell: ThresholdCell): (t: int)
    ensures cell.Numeric? ==> t == cell.n
    ensures !cell.Numeric? ==> t == DefaultThreshold
  {
    match SeedThreshold(cell)
    case Numeric(n) => n
    case _ => DefaultThreshold
  }

  /** Seeding is done once: a later run over the seeded cell leaves it alone and reads
      the same threshold again. */
  lemma ThresholdFallback(cell: ThresholdCell)
    ensures SeedThreshold(SeedThreshold(cell)) == SeedThreshold(cell)
    ensures Threshold(SeedThreshold(cell)) == Threshold(cell)
  {
  }

  /** Column L for the known IDs: a fresh cell per row, the ID's total when the map
      has it and 0 otherwise. */
  method WriteBackColumn(gfaIds: seq<string>, agg: map<string, Stats>) returns (column: seq<int>)
    ensures |column| == |gfaIds|
    ensures forall r :: 0 <= r < |gfaIds| ==> column[r] == (if gfaIds[r] in agg then agg[gfaIds[r]].sum else 0)
  {
    var lvals := new int[|gfaIds|](_ => 0);
    for r := 0 to |gfaIds|
      invariant forall k :: 0 <= k < r ==> lvals[k] == (if gfaIds[k] in agg then agg[gfaIds[k]].sum else 0)
    {
      var id := gfaIds[r];
      lvals[r] := if id in agg then agg[id].sum else 0;
    }
    column := lvals[..];
  }

  /** A row of "Get Floodlight Activities": column A (ID) and column C (name). */
  datatype GfaRow = GfaRow(rawId: string, name: string)

  /** The known IDs, trimmed. */
  function GfaIds(gfa: seq<GfaRow>): (ids: seq<string>)
    ensures |ids| == |gfa|
    ensures forall k :: 0 <= k < |gfa| ==> ids[k] == Trim(gfa[k].rawId)
  {
    if gfa == [] then [] else GfaIds(gfa[..|gfa| - 1]) + [Trim(gfa[|gfa| - 1].rawId)]
  }

  /** The known names, in sheet order. */
  function GfaNames(gfa: seq<GfaRow>): (names: seq<string>)
    ensures |names| == |gfa|
    ensures forall k :: 0 <= k < |gfa| ==> names[k] == gfa[k].name
  {
    if gfa == [] then [] else GfaNames(gfa[..|gfa| - 1]) + [gfa[|gfa| - 1].name]
  }

  /** The 30-day total the report gives an ID: the impressions of its rows; a blank ID
      collects nothing, since rows without an ID are skipped. */
  function ReportTotal(report: seq<ReportRow>, id: string): int {
    if id == "" then 0 else SumOf(RowsFor(report, id))
  }

  /** The record the report gives an ID: the fold of its rows, empty for a blank ID. */
  ghost function ReportStats(report: seq<ReportRow>, id: string): Stats {
    if id == "" then EmptyStats else StatsOf(RowsFor(report, id))
  }

  datatype IngestError = GfaSheetMissing | PasteSheetMissing | NoGfaRows

  /** What one ingest produces: the threshold used, the new column L and the health rows. */
  datatype IngestOutput = IngestOutput(threshold: int, column: seq<int>, health: seq<HealthRow>)

  /** The whole ingest. `gfa` and `paste` are the data rows of the two sheets, None when
      the sheet does not exist; the threshold is read before either sheet is looked up. */
  method IngestActivityReport(cell: ThresholdCell, gfa: Option<seq<GfaRow>>, paste: Option<seq<ReportRow>>)
    returns (result: Result<IngestOutput, IngestError>)
    ensures gfa.None? ==> result == Failure(GfaSheetMissing)
    ensures gfa.Some? && paste.None? ==> result == Failure(PasteSheetMissing)
    ensures gfa.Some? && paste.Some? && gfa.value == [] ==> result == Failure(NoGfaRows)
    ensures result.Success? <==> gfa.Some? && paste.Some? && gfa.value != []
    ensures result.Success? ==> Ingested(Threshold(cell), gfa.value, paste.value, result.value)
  {
    var threshold := Threshold(cell);
    if gfa.None? {
      return Failure(GfaSheetMissing);
    }
    if paste.None? {
      return Failure(PasteSheetMissing);
    }
    if |gfa.value| < 1 {
      return Failure(NoGfaRows);
    }
    var out := BuildOutput(threshold, gfa.value, paste.value);
    result := Success(out);
  }

  /** `out` is what the ingest of `report` against the known rows `gfa` writes. */
  ghost predicate Ingested(threshold: int, gfa: seq<GfaRow>, report: seq<ReportRow>, out: IngestOutput) {
    var ids := GfaIds(gfa);
    && out.threshold == threshold
    && ColumnHoldsTotals(report, ids, out.column)
    && |out.health| == |ids| + |UnknownIds(KeyOrder(report), ids)|
    && KnownRowsAgree(report, gfa, out)
    && UnknownRowsAgree(report, ids, out.health)
  }

  /** Column L holds each known activity's report total. */
  ghost predicate ColumnHoldsTotals(report: seq<ReportRow>, ids: seq<string>, column: seq<int>) {
    && |column| == |ids|
    && forall k :: 0 <= k < |ids| ==> column[k] == ReportTotal(report, ids[k])
  }

  /** The first rows are the known activities, in sheet order, with column L's total,
      the status and note that total earns, the number of days the report mentions
      them and their first and last report dates. */
  ghost predicate KnownRowsAgree(report: seq<ReportRow>, gfa: seq<GfaRow>, out: IngestOutput) {
    var ids := GfaIds(gfa);
    && |ids| <= |out.health| && |ids| <= |out.column|
    && forall k :: 0 <= k < |ids| ==>
         && out.health[k].id == ids[k] && out.health[k].name == gfa[k].name
         && out.health[k].imps == out.column[k]
         && out.health[k].status == Classify(out.column[k], out.threshold)
         && out.health[k].notes == NoteText(out.health[k].status, out.threshold)
         && out.health[k].daysSeen == |ReportStats(report, ids[k]).days|
         && (ids[k] != "" ==> out.health[k].daysSeen == |DaysOf(RowsFor(report, ids[k]))|)
         && out.health[k].first == ReportStats(report, ids[k]).first
         && out.health[k].last == ReportStats(report, ids[k]).last
  }

  /** After them comes one "Unknown FL" row per reported ID that is not known: the row
      of that ID's report record, so its kept name, total, day count and dates. */
  ghost predicate UnknownRowsAgree(report: seq<ReportRow>, ids: seq<string>, health: seq<HealthRow>) {
    var unknown := UnknownIds(KeyOrder(report), ids);
    && |ids| + |unknown| <= |health|
    && forall j :: 0 <= j < |unknown| ==>
         && health[|ids| + j].id == unknown[j]
         && health[|ids| + j].status == UnknownFl
         && health[|ids| + j].imps == ReportTotal(report, unknown[j])
         && health[|ids| + j].daysSeen == |DaysOf(RowsFor(report, unknown[j]))|
         && health[|ids| + j] == UnknownRow(unknown[j], StatsOf(RowsFor(report, unknown[j])))
  }

  /** The ingest once both sheets are found: aggregate, write column L, build the health rows. */
  method BuildOutput(threshold: int, gfa: seq<GfaRow>, report: seq<ReportRow>) returns (out: IngestOutput)
    ensures Ingested(threshold, gfa, report, out)
  {
    var ids, names := GfaIds(gfa), GfaNames(gfa);
    var order, agg := Aggregate(report);
    var column := WriteBackColumn(ids, agg);
    var health := BuildHealthRows(ids, names, order, agg, threshold);
    out := IngestOutput(threshold, column, health);
    ColumnFromMap(report, ids, agg, column);
    KnownRowsFromMap(report, gfa, agg, out);
    UnknownRowsFromMap(report, ids, agg, health);
  }

  lemma ColumnFromMap(report: seq<ReportRow>, ids: seq<string>, agg: map<string, Stats>, column: seq<int>)
    requires forall x :: x in agg <==> x != "" && RowsFor(report, x) != []
    requires forall x :: x in agg ==> agg[x] == StatsOf(RowsFor(report, x))
    requires |column| == |ids|
    requires forall r :: 0 <= r < |ids| ==> column[r] == (if ids[r] in agg then agg[ids[r]].sum else 0)
    ensures ColumnHoldsTotals(report, ids, column)
  {
    forall k | 0 <= k < |ids| ensures column[k] == ReportTotal(report, ids[k]) {
      KnownTotal(report, agg, ids[k]);
    }
  }

  lemma KnownRowsFromMap(report: seq<ReportRow>, gfa: seq<GfaRow>, agg: map<string, Stats>, out: IngestOutput)
    requires forall x :: x in agg <==> x != "" && RowsFor(report, x) != []
    requires forall x :: x in agg ==> agg[x] == StatsOf(RowsFor(report, x))
    requires |GfaIds(gfa)| <= |out.health| && |GfaIds(gfa)| <= |out.column|
    requires forall r :: 0 <= r < |GfaIds(gfa)| ==>
               out.column[r] == (if GfaIds(gfa)[r] in agg then agg[GfaIds(gfa)[r]].sum else 0)
    requires forall i :: 0 <= i < |GfaIds(gfa)| ==>
               out.health[i] == KnownRow(GfaIds(gfa)[i], GfaNames(gfa)[i], agg, out.threshold)
    ensures KnownRowsAgree(report, gfa, out)
  {
    var ids := GfaIds(gfa);
    forall k | 0 <= k < |ids|
      ensures out.health[k].daysSeen == |ReportStats(report, ids[k]).days|
      ensures ids[k] != "" ==> out.health[k].daysSeen == |DaysOf(RowsFor(report, ids[k]))|
      ensures out.health[k].first == ReportStats(report, ids[k]).first
      ensures out.health[k].last == ReportStats(report, ids[k]).last
    {
      KnownTotal(report, agg, ids[k]);
    }
  }

  lemma UnknownRowsFromMap(report: seq<ReportRow>, ids: seq<string>, agg: map<string, Stats>, health: seq<HealthRow>)
    requires forall x :: x in agg <==> x != "" && RowsFor(report, x) != []
    requires forall x :: x in agg ==> agg[x] == StatsOf(RowsFor(report, x))
    requires |health| == |ids| + |UnknownIds(KeyOrder(report), ids)|
    requires forall j :: 0 <= j < |UnknownIds(KeyOrder(report), ids)| ==>
               UnknownIds(KeyOrder(report), ids)[j] in agg &&
               health[|ids| + j] == UnknownRow(UnknownIds(KeyOrder(report), ids)[j], agg[UnknownIds(KeyOrder(report), ids)[j]])
    ensures UnknownRowsAgree(report, ids, health)
  {
    var unknown := UnknownIds(KeyOrder(report), ids);
    forall j | 0 <= j < |unknown|
      ensures health[|ids| + j].imps == ReportTotal(report, unknown[j])
      ensures health[|ids| + j].daysSeen == |DaysOf(RowsFor(report, unknown[j]))|
    {
      KnownTotal(report, agg, unknown[j]);
    }
  }

  /** What the map built by `Aggregate` says about one ID, in terms of the report. */
  lemma KnownTotal(report: seq<ReportRow>, agg: map<string, Stats>, id: string)
    requires forall x :: x in agg <==> x != "" && RowsFor(report, x) != []
    requires forall x :: x in agg ==> agg[x] == StatsOf(RowsFor(report, x))
    ensures (if id in agg then agg[id].sum else 0) == ReportTotal(report, id)
    ensures id in agg ==> |agg[id].days| == |DaysOf(RowsFor(report, id))|
    ensures id != "" ==> |(if id in agg then agg[id] else EmptyStats).days| == |DaysOf(RowsFor(report, id))|
    ensures (if id in agg then agg[id] else EmptyStats) == ReportStats(report, id)
  {
    if id in agg {
      StatsSum(RowsFor(report, id));
      StatsDays(RowsFor(report, id));
    } else if id != "" {
      assert RowsFor(report, id) == [];
      assert DaysOf([]) == {};
    }
  }

  /** The unknown rows name exactly the reported, non-blank IDs that are not known,
      each once (their order is `Health.UnknownIdsKeepOrder`). */
  lemma UnknownReportIds(report: seq<ReportRow>, ids: seq<string>)
    ensures forall id :: id in UnknownIds(KeyOrder(report), ids) <==>
              id != "" && RowsFor(report, id) != [] && id !in ids
    ensures Distinct(UnknownIds(KeyOrder(report), ids))
  {
    var order := KeyOrder(report);
    var u := UnknownIds(order, ids);
    assert forall id :: id in u <==> id != "" && RowsFor(report, id) != [] && id !in ids by {
      KeyOrderMembers(report);
      UnknownIdsMembers(order, ids);
    }
    assert Distinct(u) by {
      KeyOrderMembers(report);
      UnknownIdsMembers(order, ids);
    }
  }

  /** Every ID the report mentions reaches the health rows exactly one way: as a known
      activity or as an "Unknown FL" row, never both and never neither. */
  lemma HealthCoversReport(report: seq<ReportRow>, ids: seq<string>)
    ensures forall id :: id != "" && RowsFor(report, id) != [] ==>
              (id in ids) != (id in UnknownIds(KeyOrder(report), ids))
  {
    UnknownReportIds(report, ids);
  }
}

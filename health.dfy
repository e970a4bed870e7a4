/** The "Compare – DCM Activity Health" rows (`buildActivityHealthTab_`): one row per
    known Floodlight activity, in the order of the "Get Floodlight Activities" sheet,
    then one "Unknown FL" row per reported ID that sheet does not list. */
module Health {
  import opened Wrappers
  import opened Text
  import opened Aggregation

  datatype Status = NoActivity | LowImpressions | Healthy | UnknownFl

  /** The text written in the Status column. */
  function StatusText(s: Status): string {
    match s
    case NoActivity => "No Activity"
    case LowImpressions => "Low impressions \U{2014} check if still needed"
    case Healthy => "OK"
    case UnknownFl => "Unknown FL"
  }

  /** The status of a known activity from its 30-day total: zero is "No Activity",
      a non-zero total under the threshold is low, anything else is "OK". */
  function Classify(sum: int, threshold: int): (s: Status)
    ensures s == NoActivity <==> sum == 0
    ensures s == LowImpressions <==> sum != 0 && sum < threshold
    ensures s == Healthy <==> sum != 0 && threshold <= sum
    ensures s != UnknownFl
  {
    if sum == 0 then NoActivity else if sum < threshold then LowImpressions else Healthy
  }

  /** The note of an "Unknown FL" row. */
  const UnknownNote := "Not in Get Floodlight Activities"

  /** The text written in the Notes column; only the low-impressions note names the
      threshold, and only an "OK" row has an empty note. */
  function NoteText(s: Status, threshold: int): (note: string)
    ensures note == "" <==> s == Healthy
    ensures s == LowImpressions ==> |note| > 18 && note[..17] == "Below threshold (" && note[|note| - 1] == ')'
  {
    match s
    case NoActivity => "No impressions in last 30 days"
    case LowImpressions => "Below threshold (" + IntText(threshold) + ")"
    case Healthy => ""
    case UnknownFl => UnknownNote
  }

  /** One health row: FL ID, FL name, 30-day impressions, days seen, first and last
      date (None for an empty cell), status and notes. */
  datatype HealthRow = HealthRow(id: string, name: string, imps: int, daysSeen: nat,
                                 first: Option<int>, last: Option<int>, status: Status, notes: string)

  /** The row of a known activity; an ID absent from the map reads as an empty record:
      no impressions, no days, no dates, and so "No Activity". */
  function KnownRow(id: string, name: string, agg: map<string, Stats>, threshold: int): (r: HealthRow)
    ensures r.id == id && r.name == name
    ensures r.status != UnknownFl && r.status == Classify(r.imps, threshold)
    ensures r.notes == NoteText(r.status, threshold)
    ensures id in agg ==> r.imps == agg[id].sum && r.daysSeen == |agg[id].days|
    ensures id in agg ==> r.first == agg[id].first && r.last == agg[id].last
    ensures id !in agg ==> r.imps == 0 && r.daysSeen == 0 && r.first == None && r.last == None
    ensures id !in agg ==> r.status == NoActivity
  {
    var o := if id in agg then agg[id] else EmptyStats;
    var s := Classify(o.sum, threshold);
    HealthRow(id, name, o.sum, |o.days|, o.first, o.last, s, NoteText(s, threshold))
  }

  /** The row of a reported ID that is not a known activity: it carries the record's
      kept name and figures, the "Unknown FL" status and its fixed note. */
  function UnknownRow(id: string, o: Stats): (r: HealthRow)
    ensures r.id == id && r.name == o.anyName
    ensures r.imps == o.sum && r.daysSeen == |o.days| && r.first == o.first && r.last == o.last
    ensures r.status == UnknownFl && StatusText(r.status) == "Unknown FL"
    ensures r.notes == UnknownNote && r.notes != ""
  {
    HealthRow(id, o.anyName, o.sum, |o.days|, o.first, o.last, UnknownFl, UnknownNote)
  }

  /** The map's keys, in insertion order, that are not known activity IDs. */
  function UnknownIds(order: seq<string>, known: seq<string>): seq<string> {
    if order == [] then []
    else
      var id := order[|order| - 1];
      UnknownIds(order[..|order| - 1], known) + (if id in known then [] else [id])
  }

  /** Builds the health rows: the known activities first, then the unknown ones. */
  method BuildHealthRows(known: seq<string>, names: seq<string>, order: seq<string>,
                         agg: map<string, Stats>, threshold: int)
    returns (rows: seq<HealthRow>)
    requires |names| == |known|
    requires forall id :: id in order ==> id in agg
    ensures |rows| == |known| + |UnknownIds(order, known)|
    ensures forall i :: 0 <= i < |known| ==> rows[i] == KnownRow(known[i], names[i], agg, threshold)
    ensures forall j :: 0 <= j < |UnknownIds(order, known)| ==>
              UnknownIds(order, known)[j] in agg &&
              rows[|known| + j] == UnknownRow(UnknownIds(order, known)[j], agg[UnknownIds(order, known)[j]])
  {
    var knownRows := KnownHealthRows(known, names, agg, threshold);
    rows := AppendUnknownRows(knownRows, known, order, agg);
    forall i | 0 <= i < |known| ensures rows[i] == KnownRow(known[i], names[i], agg, threshold) {
      assert rows[i] == rows[..|knownRows|][i];
    }
  }

  /** The known activities, in the order of the known list, each classified against the threshold. */
  method KnownHealthRows(known: seq<string>, names: seq<string>, agg: map<string, Stats>, threshold: int)
    returns (rows: seq<HealthRow>)
    requires |names| == |known|
    ensures |rows| == |known|
    ensures forall i :: 0 <= i < |known| ==> rows[i] == KnownRow(known[i], names[i], agg, threshold)
  {
    rows := [];
    var i := 0;
    while i < |known|
      invariant 0 <= i <= |known|
      invariant |rows| == i
      invariant forall k :: 0 <= k < i ==> rows[k] == KnownRow(known[k], names[k], agg, threshold)
    {
      var id, name := known[i], names[i];
      var sum, daysSeen: nat, first, last := 0, 0, None, None;
      if id in agg {
        var o := agg[id];
        sum, daysSeen, first, last := o.sum, |o.days|, o.first, o.last;
      }
      var status, notes := Healthy, "";
      if sum == 0 {
        status, notes := NoActivity, "No impressions in last 30 days";
      } else if sum < threshold {
        status, notes := LowImpressions, "Below threshold (" + IntText(threshold) + ")";
      }
      rows := rows + [HealthRow(id, name, sum, daysSeen, first, last, status, notes)];
      i := i + 1;
    }
  }

  /** Walks the map in insertion order and appends an "Unknown FL" row for every ID
      that is not in the known list. */
  method AppendUnknownRows(rows0: seq<HealthRow>, known: seq<string>, order: seq<string>, agg: map<string, Stats>)
    returns (rows: seq<HealthRow>)
    requires forall id :: id in order ==> id in agg
    ensures |rows| == |rows0| + |UnknownIds(order, known)|
    ensures rows[..|rows0|] == rows0
    ensures forall j :: 0 <= j < |UnknownIds(order, known)| ==>
              UnknownIds(order, known)[j] in agg &&
              rows[|rows0| + j] == UnknownRow(UnknownIds(order, known)[j], agg[UnknownIds(order, known)[j]])
  {
    rows := rows0;
    var j := 0;
    while j < |order|
      invariant 0 <= j <= |order|
      invariant |rows| == |rows0| + |UnknownIds(order[..j], known)|
      invariant rows[..|rows0|] == rows0
      invariant forall m :: 0 <= m < |UnknownIds(order[..j], known)| ==>
                  UnknownIds(order[..j], known)[m] in agg &&
                  rows[|rows0| + m] == UnknownRow(UnknownIds(order[..j], known)[m], agg[UnknownIds(order[..j], known)[m]])
    {
      var id := order[j];
      UnknownIdsStep(order, j, known);
      if id !in known {
        var o := agg[id];
        rows := rows + [HealthRow(id, o.anyName, o.sum, |o.days|, o.first, o.last, UnknownFl, UnknownNote)];
      }
      j := j + 1;
    }
    assert order[..j] == order;
  }

  lemma UnknownIdsStep(order: seq<string>, j: nat, known: seq<string>)
    requires j < |order|
    ensures order[j] in known ==> UnknownIds(order[..j + 1], known) == UnknownIds(order[..j], known)
    ensures order[j] !in known ==> UnknownIds(order[..j + 1], known) == UnknownIds(order[..j], known) + [order[j]]
    ensures forall id :: id in UnknownIds(order[..j + 1], known) ==> id in UnknownIds(order[..j], known) || id == order[j]
  {
    assert order[..j + 1][..j] == order[..j];
    assert UnknownIds(order[..j], known) + [] == UnknownIds(order[..j], known);
  }

  // ---------------------------------------------------------------------------
  // What the health rows mean.
  // ---------------------------------------------------------------------------

  /** The status rules of a known activity, both ways: "No Activity" exactly when the
      total is zero, the low-impressions status exactly when a non-zero total is under
      the threshold, "OK" otherwise; a known row is never "Unknown FL"; the low note
      names the threshold, which can be read back from it. */
  lemma KnownRowStatus(id: string, name: string, agg: map<string, Stats>, threshold: int)
    ensures var r := KnownRow(id, name, agg, threshold);
      && r.id == id && r.name == name
      && r.imps == (if id in agg then agg[id].sum else 0)
      && (r.status == NoActivity <==> r.imps == 0)
      && (r.status == LowImpressions <==> r.imps != 0 && r.imps < threshold)
      && (r.status == Healthy <==> r.imps != 0 && threshold <= r.imps)
      && r.status != UnknownFl
      && StatusText(r.status) == (if r.imps == 0 then "No Activity"
                                  else if r.imps < threshold then "Low impressions \U{2014} check if still needed"
                                  else "OK")
      && (r.status == NoActivity ==> r.notes == "No impressions in last 30 days")
      && (r.status == Healthy ==> r.notes == "")
      && (r.status == LowImpressions ==>
            |r.notes| > 18 && r.notes[..17] == "Below threshold (" && r.notes[|r.notes| - 1] == ')'
            && IntValue(r.notes[17..|r.notes| - 1]) == threshold)
  {
    var r := KnownRow(id, name, agg, threshold);
    if r.status == LowImpressions {
      var t := IntText(threshold);
      IntTextRoundTrip(threshold);
      NatTextDigits(if threshold < 0 then -threshold else threshold);
      assert r.notes == "Below threshold (" + t + ")";
      assert r.notes[17..|r.notes| - 1] == t;
    }
  }

  /** The four Status column labels are distinct, so a status can be read back from its text. */
  lemma StatusTextDistinct(a: Status, b: Status)
    ensures StatusText(a) == StatusText(b) <==> a == b
  {
  }

  /** The unknown IDs are exactly the map's keys that are not known, each once when
      the keys are distinct. */
  lemma {:induction false} UnknownIdsMembers(order: seq<string>, known: seq<string>)
    ensures forall id :: id in UnknownIds(order, known) <==> id in order && id !in known
    ensures Distinct(order) ==> Distinct(UnknownIds(order, known))
    ensures |UnknownIds(order, known)| <= |order|
  {
    if order != [] {
      var init := order[..|order| - 1];
      var id := order[|order| - 1];
      assert order == init + [id];
      UnknownIdsMembers(init, known);
      var u := UnknownIds(init, known);
      if Distinct(order) {
        assert Distinct(init) by {
          forall a, b | 0 <= a < b < |init| ensures init[a] != init[b] {
            assert init[a] == order[a] && init[b] == order[b];
          }
        }
        assert id !in init by {
          forall a | 0 <= a < |init| ensures init[a] != id {
            assert init[a] == order[a];
          }
        }
        if id !in known {
          forall a, b | 0 <= a < b < |u + [id]| ensures (u + [id])[a] != (u + [id])[b] {
            if b == |u| {
              assert (u + [id])[a] == u[a];
            } else {
              assert (u + [id])[a] == u[a] && (u + [id])[b] == u[b];
            }
          }
        } else {
          assert UnknownIds(order, known) == u + [];
          assert u + [] == u;
        }
      }
    }
  }

  /** The unknown rows keep the map's insertion order: of two unknown IDs, the earlier
      one was met earlier in the report. */
  lemma {:induction false} UnknownIdsKeepOrder(order: seq<string>, known: seq<string>)
    ensures forall a, b :: 0 <= a < b < |UnknownIds(order, known)| ==>
              exists p, q :: 0 <= p < q < |order| && order[p] == UnknownIds(order, known)[a] && order[q] == UnknownIds(order, known)[b]
  {
    if order != [] {
      var init := order[..|order| - 1];
      var n := |order| - 1;
      UnknownIdsKeepOrder(init, known);
      UnknownIdsMembers(init, known);
      var u := UnknownIds(init, known);
      var w := UnknownIds(order, known);
      assert w == u + (if order[n] in known then [] else [order[n]]);
      forall a, b | 0 <= a < b < |w|
        ensures exists p, q :: 0 <= p < q < |order| && order[p] == w[a] && order[q] == w[b]
      {
        if b < |u| {
          assert w[a] == u[a] && w[b] == u[b];
          var p, q :| 0 <= p < q < |init| && init[p] == u[a] && init[q] == u[b];
          assert order[p] == init[p] && order[q] == init[q];
        } else {
          assert w[a] == u[a] && w[b] == order[n];
          assert u[a] in init;
          var p :| 0 <= p < |init| && init[p] == u[a];
          assert order[p] == init[p];
        }
      }
      assert w == UnknownIds(order, known);
    } else {
      assert UnknownIds(order, known) == [];
    }
  }
}

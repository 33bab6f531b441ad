/**
 The chunked metric export: merging export rows, fetching hour by hour with retries and an early stop,
 and the probe query that chooses the range.

 Times are integers (milliseconds in the export, as the probe and its buffer are set in whole minutes);
 sample values are opaque; a series is its label set, used directly as the canonical key.
 */
module ExportRows {
  import opened Wrappers

  /** A raw sample; its value is None for a JSON null. */
  datatype Sample<V> = Sample(time: int, value: Option<V>)

  /** The two row layouts: parallel lists, or pairs (which carry no null). */
  datatype Row<M, V> =
    | Columns(metric: M, timestamps: seq<int>, values: seq<Option<V>>)
    | Pairs(metric: M, samples: seq<(int, V)>)

  /** A merged series; timestamps are scaled by 1000 on the way in. */
  datatype Entry<M, V> = Entry(metric: M, timestamps: seq<int>, values: seq<V>)

  predicate WellFormed<M, V>(row: Row<M, V>) {
    row.Columns? ==> |row.timestamps| == |row.values|
  }

  // ---------------------------------------------------------------- insertion-ordered dictionaries

  /** The position of a series; the length of the list when it is not there yet. */
  function Find<M(==), V>(entries: seq<Entry<M, V>>, metric: M): (i: nat)
    ensures i <= |entries|
    ensures i < |entries| ==> entries[i].metric == metric
    ensures forall j :: 0 <= j < i ==> entries[j].metric != metric
  {
    if entries == [] || entries[0].metric == metric then 0 else 1 + Find(entries[1..], metric)
  }

  /** setdefault, then extend both lists. */
  function Extend<M(==), V>(entries: seq<Entry<M, V>>, e: Entry<M, V>): seq<Entry<M, V>> {
    var i := Find(entries, e.metric);
    if i == |entries| then entries + [e]
    else entries[i := Entry(e.metric, entries[i].timestamps + e.timestamps, entries[i].values + e.values)]
  }

  function ExtendAll<M(==), V>(entries: seq<Entry<M, V>>, more: seq<Entry<M, V>>): seq<Entry<M, V>> {
    if more == [] then entries else Extend(ExtendAll(entries, more[..|more| - 1]), more[|more| - 1])
  }

  /** Every series once. */
  ghost predicate Distinct<M, V>(entries: seq<Entry<M, V>>) {
    forall i, j :: 0 <= i < j < |entries| ==> entries[i].metric != entries[j].metric
  }

  // ---------------------------------------------------------------- merging, as functions

  function RawSamples<M, V>(row: Row<M, V>): seq<Sample<V>>
    requires WellFormed(row)
  {
    match row
    case Columns(_, ts, vs) => seq(|ts|, i requires 0 <= i < |ts| => Sample(ts[i], vs[i]))
    case Pairs(_, ss) => seq(|ss|, i requires 0 <= i < |ss| => Sample(ss[i].0, Some(ss[i].1)))
  }

  /** The samples that are kept: nulls are dropped. */
  function Kept<V>(samples: seq<Sample<V>>): (seq<int>, seq<V>) {
    if samples == [] then ([], [])
    else
      var (ts, vs) := Kept(samples[..|samples| - 1]);
      var last := samples[|samples| - 1];
      if last.value.Some? then (ts + [last.time * 1000], vs + [last.value.value]) else (ts, vs)
  }

  function RowEntry<M, V>(row: Row<M, V>): Entry<M, V>
    requires WellFormed(row)
  {
    var (ts, vs) := Kept(RawSamples(row));
    Entry(row.metric, ts, vs)
  }

  /** None if some row has lists of different lengths. */
  function MergeRows<M(==), V>(rows: seq<Row<M, V>>): Option<seq<Entry<M, V>>> {
    if rows == [] then Some([])
    else
      var merged :- MergeRows(rows[..|rows| - 1]);
      var last := rows[|rows| - 1];
      if WellFormed(last) then Some(Extend(merged, RowEntry(last))) else None
  }

  // ---------------------------------------------------------------- merging, as the script runs it

  method CopySamples<V>(samples: seq<Sample<V>>, timestamps: seq<int>, values: seq<V>) returns (ts: seq<int>, vs: seq<V>)
    ensures ts == timestamps + Kept(samples).0 && vs == values + Kept(samples).1
  {
    ts, vs := timestamps, values;
    for i := 0 to |samples|
      invariant ts == timestamps + Kept(samples[..i]).0 && vs == values + Kept(samples[..i]).1
    {
      assert samples[..i + 1][..i] == samples[..i];
      if samples[i].value.None? {
        continue;
      }
      ts := ts + [samples[i].time * 1000];
      vs := vs + [samples[i].value.value];
    }
    assert samples[..|samples|] == samples;
  }

  lemma RowEntryIs<M, V>(row: Row<M, V>)
    requires WellFormed(row)
    ensures RowEntry(row) == Entry(row.metric, Kept(RawSamples(row)).0, Kept(RawSamples(row)).1)
  {
  }

  /** A series that is new: added empty, then filled. */
  lemma NewEntry<M, V>(entries: seq<Entry<M, V>>, e: Entry<M, V>)
    requires Find(entries, e.metric) == |entries|
    ensures (entries + [Entry(e.metric, [], [])])[|entries| := e] == Extend(entries, e)
  {
  }

  /** A series that is there: both lists extended. */
  lemma OldEntry<M, V>(entries: seq<Entry<M, V>>, e: Entry<M, V>, ts: seq<int>, vs: seq<V>)
    requires var at := Find(entries, e.metric);
             at < |entries| && ts == entries[at].timestamps + e.timestamps && vs == entries[at].values + e.values
    ensures entries[Find(entries, e.metric) := Entry(e.metric, ts, vs)] == Extend(entries, e)
  {
  }

  method MergeExportRows<M(==), V>(rows: seq<Row<M, V>>) returns (result: Option<seq<Entry<M, V>>>)
    ensures result == MergeRows(rows)
  {
    hide Extend, RowEntry, Kept, RawSamples;
    var merged: seq<Entry<M, V>> := [];
    for i := 0 to |rows|
      invariant MergeRows(rows[..i]) == Some(merged)
    {
      assert rows[..i + 1][..i] == rows[..i];
      var row := rows[i];
      ghost var before := merged;
      var at := Find(merged, row.metric);
      if at == |merged| {
        merged := merged + [Entry(row.metric, [], [])];
      }
      if !WellFormed(row) {
        MergeFails(rows, i);
        return None;
      }
      var ts, vs := CopySamples(RawSamples(row), merged[at].timestamps, merged[at].values);
      merged := merged[at := Entry(row.metric, ts, vs)];
      RowEntryIs(row);
      if at == |before| {
        assert [] + Kept(RawSamples(row)).0 == Kept(RawSamples(row)).0;
        assert [] + Kept(RawSamples(row)).1 == Kept(RawSamples(row)).1;
        NewEntry(before, RowEntry(row));
      } else {
        OldEntry(before, RowEntry(row), ts, vs);
      }
    }
    assert rows[..|rows|] == rows;
    result := Some(merged);
  }

  lemma {:induction false} MergeFails<M, V>(rows: seq<Row<M, V>>, i: nat)
    requires i < |rows| && !WellFormed(rows[i])
    ensures MergeRows(rows).None?
  {
    if i < |rows| - 1 {
      MergeFails(rows[..|rows| - 1], i);
    }
  }

  // ---------------------------------------------------------------- merging is a homomorphism

  lemma {:induction false} FindSame<M, V>(entries: seq<Entry<M, V>>, metric: M, i: nat)
    requires i <= |entries|
    requires i < |entries| ==> entries[i].metric == metric
    requires forall j :: 0 <= j < i ==> entries[j].metric != metric
    ensures Find(entries, metric) == i
  {
  }

  lemma ExtendDistinct<M, V>(entries: seq<Entry<M, V>>, e: Entry<M, V>)
    requires Distinct(entries)
    ensures Distinct(Extend(entries, e))
  {
  }

  lemma {:induction false} ExtendAllDistinct<M, V>(entries: seq<Entry<M, V>>, more: seq<Entry<M, V>>)
    requires Distinct(entries)
    ensures Distinct(ExtendAll(entries, more))
  {
    if more != [] {
      ExtendAllDistinct(entries, more[..|more| - 1]);
      ExtendDistinct(ExtendAll(entries, more[..|more| - 1]), more[|more| - 1]);
    }
  }

  lemma {:induction false} MergeDistinct<M, V>(rows: seq<Row<M, V>>)
    requires MergeRows(rows).Some?
    ensures Distinct(MergeRows(rows).value)
  {
    hide Extend, RowEntry;
    if rows != [] {
      MergeDistinct(rows[..|rows| - 1]);
      ExtendDistinct(MergeRows(rows[..|rows| - 1]).value, RowEntry(rows[|rows| - 1]));
    }
  }

  /** Extending twice with the same series is extending once with both parts. */
  lemma ExtendTwice<M, V>(entries: seq<Entry<M, V>>, e: Entry<M, V>, f: Entry<M, V>)
    requires e.metric == f.metric && Distinct(entries)
    ensures Extend(Extend(entries, e), f) == Extend(entries, Entry(e.metric, e.timestamps + f.timestamps, e.values + f.values))
  {
    var i := Find(entries, e.metric);
    var once := Extend(entries, e);
    FindSame(once, e.metric, i);
    if i < |entries| {
      var prior := entries[i];
      assert prior.timestamps + e.timestamps + f.timestamps == prior.timestamps + (e.timestamps + f.timestamps);
      assert prior.values + e.values + f.values == prior.values + (e.values + f.values);
    }
  }

  /** Extending series that are both there, or known to come in this order, commutes. */
  lemma ExtendSwap<M, V>(entries: seq<Entry<M, V>>, e: Entry<M, V>, f: Entry<M, V>)
    requires e.metric != f.metric && Distinct(entries) && Find(entries, f.metric) < |entries|
    ensures Extend(Extend(entries, e), f) == Extend(Extend(entries, f), e)
  {
    hide Find;
    var i, j := Find(entries, e.metric), Find(entries, f.metric);
    var withE, withF := Extend(entries, e), Extend(entries, f);
    assert withE[j] == entries[j] && (i < |entries| ==> withF[i] == entries[i]);
    FindSame(withE, f.metric, j);
    FindSame(withF, e.metric, i);
    assert Extend(withE, f) == withE[j := withF[j]];
    if i < |entries| {
      assert Extend(withF, e) == withF[i := withE[i]];
    }
  }

  lemma {:induction false} HasAfterAll<M, V>(entries: seq<Entry<M, V>>, more: seq<Entry<M, V>>, k: nat)
    requires k < |more|
    ensures Find(ExtendAll(entries, more), more[k].metric) < |ExtendAll(entries, more)|
  {
    var front, last := more[..|more| - 1], more[|more| - 1];
    var before := ExtendAll(entries, front);
    if k < |front| {
      HasAfterAll(entries, front, k);
      assert Extend(before, last)[Find(before, more[k].metric)].metric == more[k].metric;
    } else {
      assert Extend(before, last)[Find(before, last.metric)].metric == last.metric;
    }
  }

  /** Extending by a list that was itself extended is extending by the list and then by the rest. */
  lemma {:induction false} ExtendAllExtend<M, V>(entries: seq<Entry<M, V>>, more: seq<Entry<M, V>>, e: Entry<M, V>)
    requires Distinct(entries) && Distinct(more)
    ensures ExtendAll(entries, Extend(more, e)) == Extend(ExtendAll(entries, more), e)
  {
    var i := Find(more, e.metric);
    if i == |more| {
      assert Extend(more, e)[..|more|] == more;
    } else {
      var front, last := more[..|more| - 1], more[|more| - 1];
      var before := ExtendAll(entries, front);
      ExtendAllDistinct(entries, front);
      if i == |front| {
        var joined := Entry(e.metric, last.timestamps + e.timestamps, last.values + e.values);
        assert Extend(more, e)[..|more| - 1] == front;
        ExtendTwice(before, last, e);
      } else {
        FindSame(front, e.metric, i);
        assert Extend(more, e)[..|more| - 1] == Extend(front, e);
        ExtendAllExtend(entries, front, e);
        HasAfterAll(entries, front, i);
        assert front[i].metric == e.metric;
        ExtendSwap(before, last, e);
      }
    }
  }

  /** Merging rows is a homomorphism: merge the parts, then extend the first result by the second. */
  lemma {:induction false} MergeConcat<M, V>(a: seq<Row<M, V>>, b: seq<Row<M, V>>)
    ensures MergeRows(a + b)
         == if MergeRows(a).Some? && MergeRows(b).Some? then Some(ExtendAll(MergeRows(a).value, MergeRows(b).value)) else None
  {
    hide RowEntry, Extend, WellFormed;
    if b == [] {
      assert a + b == a;
    } else {
      var front, last := b[..|b| - 1], b[|b| - 1];
      assert (a + b)[..|a + b| - 1] == a + front;
      MergeConcat(a, front);
      if MergeRows(a).Some? && MergeRows(front).Some? && WellFormed(last) {
        MergeDistinct(a);
        MergeDistinct(front);
        ExtendAllExtend(MergeRows(a).value, MergeRows(front).value, RowEntry(last));
      }
    }
  }

  // ---------------------------------------------------------------- what a merged list holds

  /** The samples of one series among the rows, in row order. */
  function SamplesOf<M(==), V>(rows: seq<Row<M, V>>, metric: M): seq<Sample<V>> {
    if rows == [] then []
    else
      var before, last := SamplesOf(rows[..|rows| - 1], metric), rows[|rows| - 1];
      if last.metric == metric && WellFormed(last) then before + RawSamples(last) else before
  }

  lemma {:induction false} KeptConcat<V>(a: seq<Sample<V>>, b: seq<Sample<V>>)
    ensures Kept(a + b).0 == Kept(a).0 + Kept(b).0
    ensures Kept(a + b).1 == Kept(a).1 + Kept(b).1
  {
    if b == [] {
      assert a + b == a;
    } else {
      assert (a + b)[..|a + b| - 1] == a + b[..|b| - 1];
      KeptConcat(a, b[..|b| - 1]);
    }
  }

  /**
   Each merged series holds exactly the non-null samples of its rows, in order; a series is there iff a row
   names it.
   */
  lemma {:induction false} MergeHolds<M, V>(rows: seq<Row<M, V>>, metric: M)
    requires MergeRows(rows).Some?
    ensures var merged := MergeRows(rows).value;
            var i := Find(merged, metric);
            (i < |merged| <==> exists k :: 0 <= k < |rows| && rows[k].metric == metric) &&
            (i < |merged| ==> (merged[i].timestamps, merged[i].values) == Kept(SamplesOf(rows, metric)))
  {
    if rows != [] {
      var front, last := rows[..|rows| - 1], rows[|rows| - 1];
      var before := MergeRows(front).value;
      var merged := MergeRows(rows).value;
      MergeHolds(front, metric);
      var i := Find(before, metric);
      assert forall k :: 0 <= k < |front| ==> front[k] == rows[k];
      if last.metric == metric {
        FindSame(merged, metric, i);
        if i == |before| {
          NoSamples(front, metric);
          assert [] + RawSamples(last) == RawSamples(last);
        } else {
          KeptConcat(SamplesOf(front, metric), RawSamples(last));
        }
      } else {
        if i < |before| {
          FindSame(merged, metric, i);
        } else {
          FindSame(merged, metric, |merged|);
        }
      }
    }
  }

  lemma {:induction false} NoSamples<M, V>(rows: seq<Row<M, V>>, metric: M)
    requires forall k :: 0 <= k < |rows| ==> rows[k].metric != metric
    ensures SamplesOf(rows, metric) == []
  {
    if rows != [] {
      NoSamples(rows[..|rows| - 1], metric);
    }
  }

  // ---------------------------------------------------------------- a merged list, sample by sample

  function Length<M, V>(row: Row<M, V>): nat {
    if row.Columns? then |row.timestamps| else |row.samples|
  }

  function TimeAt<M, V>(row: Row<M, V>, i: nat): int
    requires i < Length(row)
  {
    if row.Columns? then row.timestamps[i] else row.samples[i].0
  }

  function ValueAt<M, V>(row: Row<M, V>, i: nat): Option<V>
    requires i < Length(row) && (row.Columns? ==> |row.values| == |row.timestamps|)
  {
    if row.Columns? then row.values[i] else Some(row.samples[i].1)
  }

  /** A sample: its row and its place in the row. */
  type Place = (nat, nat)

  ghost predicate Ascending(places: seq<Place>) {
    forall p, q :: 0 <= p < q < |places| ==>
      places[p].0 < places[q].0 || (places[p].0 == places[q].0 && places[p].1 < places[q].1)
  }

  /** A place in a row of a series. */
  ghost predicate IsPlace<M, V>(rows: seq<Row<M, V>>, metric: M, place: Place) {
    place.0 < |rows| && rows[place.0].metric == metric && place.1 < Length(rows[place.0])
  }

  ghost predicate Paired<M, V>(rows: seq<Row<M, V>>) {
    forall k :: 0 <= k < |rows| && rows[k].Columns? ==> |rows[k].values| == |rows[k].timestamps|
  }

  /** Merging fails if and only if some row has lists of different lengths. */
  lemma {:induction false} MergeFailsIff<M, V>(rows: seq<Row<M, V>>)
    ensures MergeRows(rows).Some? <==> Paired(rows)
  {
    hide Extend, RowEntry;
    if rows != [] {
      var front, last := rows[..|rows| - 1], rows[|rows| - 1];
      MergeFailsIff(front);
      assert rows == front + [last];
      assert forall k :: 0 <= k < |front| ==> rows[k] == front[k];
    }
  }

  function RowPlaces(k: nat, n: nat): (places: seq<Place>)
    ensures |places| == n && forall i :: 0 <= i < n ==> places[i] == (k, i)
  {
    seq(n, i requires 0 <= i < n => (k, i))
  }

  lemma RawAt<M, V>(row: Row<M, V>)
    requires WellFormed(row)
    ensures |RawSamples(row)| == Length(row)
    ensures forall i :: 0 <= i < Length(row) ==> RawSamples(row)[i] == Sample(TimeAt(row, i), ValueAt(row, i))
  {
  }

  /** The samples of a series are those at its places, in order. */
  lemma {:induction false} SamplesAt<M, V>(rows: seq<Row<M, V>>, metric: M) returns (places: seq<Place>)
    requires Paired(rows)
    ensures Ascending(places) && forall place: Place :: place in places <==> IsPlace(rows, metric, place)
    ensures |places| == |SamplesOf(rows, metric)|
    ensures forall p :: 0 <= p < |places| ==>
              IsPlace(rows, metric, places[p]) &&
              var (k, i) := places[p]; SamplesOf(rows, metric)[p] == Sample(TimeAt(rows[k], i), ValueAt(rows[k], i))
  {
    hide RawSamples, TimeAt, ValueAt, Length;
    if rows == [] {
      places := [];
    } else {
      var n := |rows| - 1;
      var front, last := rows[..n], rows[n];
      assert forall k :: 0 <= k < n ==> front[k] == rows[k];
      var before := SamplesAt(front, metric);
      assert forall p :: 0 <= p < |before| ==> before[p] in before;
      if last.metric == metric {
        RawAt(last);
        places := before + RowPlaces(n, Length(last));
        PlacesGrow(rows, metric, before);
      } else {
        places := before;
        PlacesStay(rows, metric);
      }
      forall p | 0 <= p < |places| ensures IsPlace(rows, metric, places[p]) {
        assert places[p] in places;
      }
    }
  }

  lemma PlacesGrow<M, V>(rows: seq<Row<M, V>>, metric: M, before: seq<Place>)
    requires rows != [] && rows[|rows| - 1].metric == metric && Ascending(before)
    requires forall place: Place :: place in before <==> IsPlace(rows[..|rows| - 1], metric, place)
    ensures var places := before + RowPlaces(|rows| - 1, Length(rows[|rows| - 1]));
            Ascending(places) && forall place: Place :: place in places <==> IsPlace(rows, metric, place)
  {
    hide Length;
    var n := |rows| - 1;
    var own := RowPlaces(n, Length(rows[n]));
    forall p | 0 <= p < |before| ensures before[p].0 < n {
      assert before[p] in before;
    }
    forall place: Place ensures place in before + own <==> IsPlace(rows, metric, place) {
      if place.0 == n && place.1 < Length(rows[n]) {
        assert own[place.1] == place;
      }
      if place in own {
        var i :| 0 <= i < |own| && own[i] == place;
      }
    }
  }

  lemma PlacesStay<M, V>(rows: seq<Row<M, V>>, metric: M)
    requires rows != [] && rows[|rows| - 1].metric != metric
    ensures forall place: Place :: IsPlace(rows[..|rows| - 1], metric, place) <==> IsPlace(rows, metric, place)
  {
    hide Length;
  }

  /** What is kept are the samples that are not null, in order, their times scaled. */
  lemma {:induction false} KeptAt<V>(samples: seq<Sample<V>>) returns (picks: seq<nat>)
    ensures forall p, q :: 0 <= p < q < |picks| ==> picks[p] < picks[q]
    ensures forall i: nat :: i in picks <==> i < |samples| && samples[i].value.Some?
    ensures |Kept(samples).0| == |Kept(samples).1| == |picks|
    ensures forall p :: 0 <= p < |picks| ==>
              picks[p] < |samples| && samples[picks[p]].value.Some? &&
              Kept(samples).0[p] == samples[picks[p]].time * 1000 && Kept(samples).1[p] == samples[picks[p]].value.value
  {
    picks := [];
    if samples != [] {
      var n := |samples| - 1;
      var front := samples[..n];
      assert forall i :: 0 <= i < n ==> front[i] == samples[i];
      picks := KeptAt(front);
      assert forall p :: 0 <= p < |picks| ==> picks[p] in picks;
      if samples[n].value.Some? {
        picks := picks + [n];
      }
    }
  }

  /**
   A series in a merged list, sample by sample: its two lists are the times, scaled to thousandths, and values
   of exactly the non-null samples of its rows, row by row in order.
   */
  lemma MergeLists<M, V>(rows: seq<Row<M, V>>, metric: M) returns (places: seq<Place>)
    requires Paired(rows) && exists k :: 0 <= k < |rows| && rows[k].metric == metric
    ensures MergeRows(rows).Some? && Find(MergeRows(rows).value, metric) < |MergeRows(rows).value|
    ensures Ascending(places)
    ensures forall place: Place :: place in places <==>
              IsPlace(rows, metric, place) && ValueAt(rows[place.0], place.1).Some?
    ensures var e := MergeRows(rows).value[Find(MergeRows(rows).value, metric)];
            |e.timestamps| == |e.values| == |places| &&
            forall p :: 0 <= p < |places| ==>
              IsPlace(rows, metric, places[p]) &&
              var (k, i) := places[p];
              e.timestamps[p] == 1000 * TimeAt(rows[k], i) && Some(e.values[p]) == ValueAt(rows[k], i)
  {
    hide MergeRows, Find, SamplesOf, Kept, TimeAt, ValueAt, Length;
    MergeFailsIff(rows);
    MergeHolds(rows, metric);
    var all := SamplesAt(rows, metric);
    var picks := KeptAt(SamplesOf(rows, metric));
    places := seq(|picks|, p requires 0 <= p < |picks| => all[picks[p]]);
    forall place: Place ensures place in places <==> IsPlace(rows, metric, place) && ValueAt(rows[place.0], place.1).Some? {
      if place in places {
        var p :| 0 <= p < |places| && places[p] == place;
      }
      if IsPlace(rows, metric, place) && ValueAt(rows[place.0], place.1).Some? {
        assert place in all;
        var i :| 0 <= i < |all| && all[i] == place;
        assert i in picks;
        var p :| 0 <= p < |picks| && picks[p] == i;
        assert places[p] == place;
      }
    }
  }

  /** Series come in the order in which rows first name them. */
  lemma {:induction false} MergeOrder<M, V>(rows: seq<Row<M, V>>, i: nat, j: nat) returns (k: nat)
    requires MergeRows(rows).Some? && i < j < |MergeRows(rows).value|
    ensures k < |rows| && rows[k].metric == MergeRows(rows).value[i].metric
    ensures forall l :: 0 <= l <= k ==> rows[l].metric != MergeRows(rows).value[j].metric
  {
    var n := |rows| - 1;
    var front, last := rows[..n], rows[n];
    var before := MergeRows(front).value;
    assert forall l :: 0 <= l < n ==> front[l] == rows[l];
    if j < |before| {
      k := MergeOrder(front, i, j);
    } else {
      MergeDistinct(front);
      FindSame(before, before[i].metric, i);
      MergeHolds(front, before[i].metric);
      MergeHolds(front, last.metric);
      k :| 0 <= k < |front| && front[k].metric == before[i].metric;
    }
  }
}

/** The export loop of one cluster: one request per hour, retried, with an early stop. */
module ChunkedExport {
  import opened Wrappers
  import opened ExportRows

  const CHUNK := 3_600_000

  /** The server's answer to the k-th attempt for a window; None is a failed request. */
  type Client<M, V> = (int, int, nat) -> Option<seq<Row<M, V>>>

  function Min(a: int, b: int): int {
    if a < b then a else b
  }

  // ---------------------------------------------------------------- the loop, as functions

  /** The rows of one attempt, if the request succeeded and the rows could be merged. */
  function Attempt<M(==), V>(client: Client<M, V>, low: int, high: int, k: nat): Option<seq<Row<M, V>>> {
    var rows :- client(low, high, k);
    if MergeRows(rows).Some? then Some(rows) else None
  }

  /** The first successful attempt from the k-th on; the last one allowed is the retries-th. */
  function FetchFrom<M(==), V>(client: Client<M, V>, low: int, high: int, k: nat, retries: nat): Option<seq<Row<M, V>>>
    requires k <= retries
    decreases retries - k
  {
    var rows := Attempt(client, low, high, k);
    if rows.Some? || k == retries then rows else FetchFrom(client, low, high, k + 1, retries)
  }

  function ExportFrom<M(==), V>(client: Client<M, V>, cursor: int, end: int, retries: nat, entries: seq<Entry<M, V>>)
    : Option<seq<Entry<M, V>>>
    decreases end - cursor
  {
    if cursor >= end then Some(entries)
    else
      var chunkEnd := Min(cursor + CHUNK, end);
      var raw :- FetchFrom(client, cursor, chunkEnd, 0, retries);
      var rows :- MergeRows(raw);
      if rows == [] then
        if entries != [] then Some(entries) else ExportFrom(client, chunkEnd, end, retries, entries)
      else ExportFrom(client, chunkEnd, end, retries, ExtendAll(entries, rows))
  }

  function Chunks(cursor: int, end: int): (n: nat)
    decreases end - cursor
  {
    if cursor >= end then 0 else 1 + Chunks(cursor + CHUNK, end)
  }

  // ---------------------------------------------------------------- the loop, as the script runs it

  /** The request succeeds and its rows can be merged. */
  predicate Answers<M(==), V>(client: Client<M, V>, low: int, high: int, k: nat) {
    client(low, high, k).Some? && MergeRows(client(low, high, k).value).Some?
  }

  method FetchChunk<M(==), V>(client: Client<M, V>, low: int, high: int, retries: nat)
    returns (rows: Option<seq<Entry<M, V>>>, attempts: nat)
    ensures 1 <= attempts <= retries + 1
    ensures rows.Some? ==>
              client(low, high, attempts - 1).Some? && rows == MergeRows(client(low, high, attempts - 1).value) &&
              forall i: nat :: i < attempts - 1 ==> !Answers(client, low, high, i)
    ensures rows.None? ==> attempts == retries + 1 && forall i: nat :: i <= retries ==> !Answers(client, low, high, i)
    ensures rows == match FetchFrom(client, low, high, 0, retries) case None => None case Some(raw) => MergeRows(raw)
  {
    hide MergeRows;
    rows, attempts := None, 0;
    for attempt := 0 to retries + 1
      invariant attempts == attempt && rows.None?
      invariant attempt <= retries ==>
                  FetchFrom(client, low, high, 0, retries) == FetchFrom(client, low, high, attempt, retries)
      invariant attempt == retries + 1 ==> FetchFrom(client, low, high, 0, retries).None?
      invariant forall i: nat :: i < attempt ==> !Answers(client, low, high, i)
    {
      attempts := attempts + 1;
      var raw := client(low, high, attempt);
      if raw.Some? {
        rows := MergeExportRows(raw.value);
        if rows.Some? {
          return;
        }
      }
    }
  }

  /** The inner loop: extend the series collected so far by those of one chunk. */
  method ExtendEntries<M(==), V>(collected: seq<Entry<M, V>>, rows: seq<Entry<M, V>>) returns (entries: seq<Entry<M, V>>)
    ensures entries == ExtendAll(collected, rows)
  {
    entries := collected;
    for i := 0 to |rows|
      invariant entries == ExtendAll(collected, rows[..i])
    {
      assert rows[..i + 1][..i] == rows[..i];
      entries := Extend(entries, rows[i]);
    }
    assert rows[..|rows|] == rows;
  }

  method ExtractCluster<M(==), V>(client: Client<M, V>, start: int, end: int, retries: nat)
    returns (result: Option<seq<Entry<M, V>>>, requests: nat)
    ensures result == ExportFrom(client, start, end, retries, [])
    ensures requests <= (retries + 1) * if start < end then (end - start + 3_599_999) / 3_600_000 else 0
  {
    hide FetchFrom, MergeRows, ExtendAll;
    ChunksAre(start, end);
    var entries: seq<Entry<M, V>> := [];
    var cursor := start;
    requests := 0;
    while cursor < end
      invariant ExportFrom(client, start, end, retries, []) == ExportFrom(client, cursor, end, retries, entries)
      invariant requests + (retries + 1) * Chunks(cursor, end) <= (retries + 1) * Chunks(start, end)
      decreases end - cursor
    {
      var chunkEnd := Min(cursor + CHUNK, end);
      var rows, attempts := FetchChunk(client, cursor, chunkEnd, retries);
      requests := requests + attempts;
      OneMoreChunk(cursor, end, retries);
      if rows.None? {
        return None, requests;
      }
      if rows.value == [] {
        if entries != [] {
          break;
        }
        cursor := chunkEnd;
        continue;
      }
      entries := ExtendEntries(entries, rows.value);
      cursor := chunkEnd;
    }
    result := Some(entries);
  }

  /** One chunk per started hour. */
  lemma {:induction false} ChunksAre(cursor: int, end: int)
    ensures Chunks(cursor, end) == if cursor < end then (end - cursor + 3_599_999) / 3_600_000 else 0
    decreases end - cursor
  {
    if cursor < end {
      ChunksAre(cursor + CHUNK, end);
      HourLess(end - cursor);
    }
  }

  lemma HourLess(n: int)
    ensures (n + 3_599_999) / 3_600_000 == 1 + (n - 3_600_000 + 3_599_999) / 3_600_000
  {
  }

  lemma OneMoreChunk(cursor: int, end: int, retries: nat)
    requires cursor < end
    ensures (retries + 1) * Chunks(cursor, end)
         == (retries + 1) + (retries + 1) * Chunks(Min(cursor + CHUNK, end), end)
  {
    if cursor + CHUNK >= end {
      assert Chunks(cursor + CHUNK, end) == 0 == Chunks(end, end);
    }
    assert Chunks(cursor, end) == 1 + Chunks(Min(cursor + CHUNK, end), end);
  }

  // ---------------------------------------------------------------- chunked = one merge

  /** All rows of the successful attempts, up to the first empty chunk once rows have come. */
  function RowsFrom<M(==), V>(client: Client<M, V>, cursor: int, end: int, retries: nat, have: bool): Option<seq<Row<M, V>>>
    decreases end - cursor
  {
    if cursor >= end then Some([])
    else
      var chunkEnd := Min(cursor + CHUNK, end);
      var raw :- FetchFrom(client, cursor, chunkEnd, 0, retries);
      if raw == [] && have then Some([])
      else
        var rest :- RowsFrom(client, chunkEnd, end, retries, have || raw != []);
        Some(raw + rest)
  }

  lemma MergeEmpty<M, V>(rows: seq<Row<M, V>>)
    requires MergeRows(rows).Some?
    ensures MergeRows(rows).value == [] <==> rows == []
  {
    hide RowEntry, WellFormed;
  }

  /** Fetching yields the rows of the first attempt that answers, and fails only when none of all attempts does. */
  lemma {:induction false} FetchIsFirst<M, V>(client: Client<M, V>, low: int, high: int, k: nat, retries: nat) returns (i: nat)
    requires k <= retries
    ensures k <= i <= retries && forall j: nat :: k <= j < i ==> !Answers(client, low, high, j)
    ensures var raw := FetchFrom(client, low, high, k, retries);
            if raw.Some? then Answers(client, low, high, i) && raw == client(low, high, i)
            else i == retries && !Answers(client, low, high, i)
    decreases retries - k
  {
    hide MergeRows;
    if Attempt(client, low, high, k).None? && k < retries {
      i := FetchIsFirst(client, low, high, k + 1, retries);
    } else {
      i := k;
    }
  }

  lemma {:induction false} FetchMerges<M, V>(client: Client<M, V>, low: int, high: int, k: nat, retries: nat)
    requires k <= retries
    ensures var raw := FetchFrom(client, low, high, k, retries);
            raw.Some? ==> MergeRows(raw.value).Some? && exists i :: k <= i <= retries && client(low, high, i) == raw
    decreases retries - k
  {
    hide MergeRows;
    if Attempt(client, low, high, k).None? && k < retries {
      FetchMerges(client, low, high, k + 1, retries);
    }
  }

  /** The chunked export is one merge of the rows of the successful attempts. */
  lemma {:induction false} ExportIsOneMerge<M, V>(
    client: Client<M, V>, cursor: int, end: int, retries: nat, earlier: seq<Row<M, V>>)
    requires MergeRows(earlier).Some?
    ensures ExportFrom(client, cursor, end, retries, MergeRows(earlier).value) ==
            match RowsFrom(client, cursor, end, retries, earlier != [])
            case None => None
            case Some(rows) => MergeRows(earlier + rows)
    decreases end - cursor
  {
    hide MergeRows, FetchFrom, ExtendAll;
    var entries := MergeRows(earlier).value;
    if cursor >= end {
      assert earlier + [] == earlier;
    } else {
      var chunkEnd := Min(cursor + CHUNK, end);
      FetchMerges(client, cursor, chunkEnd, 0, retries);
      var raw := FetchFrom(client, cursor, chunkEnd, 0, retries);
      if raw.Some? {
        MergeEmpty(earlier);
        MergeEmpty(raw.value);
        if raw.value == [] {
          assert earlier + [] == earlier;
          ExportIsOneMerge(client, chunkEnd, end, retries, earlier);
          var rest := RowsFrom(client, chunkEnd, end, retries, earlier != []);
          if earlier == [] && rest.Some? {
            assert raw.value + rest.value == rest.value;
          }
        } else {
          MergeConcat(earlier, raw.value);
          ExportIsOneMerge(client, chunkEnd, end, retries, earlier + raw.value);
          var rest := RowsFrom(client, chunkEnd, end, retries, true);
          if rest.Some? {
            assert earlier + (raw.value + rest.value) == earlier + raw.value + rest.value;
          }
        }
      }
    }
  }

  // ---------------------------------------------------------------- when an export fails

  /** No attempt for the k-th hour of a range answers. */
  ghost predicate AllFail<M, V>(client: Client<M, V>, start: int, end: int, retries: nat, k: nat) {
    var low, high := start + k * 3_600_000, Min(start + (k + 1) * 3_600_000, end);
    forall i: nat :: i <= retries ==> !Answers(client, low, high, i)
  }

  /** The rows fetched for the k-th hour. */
  function HourRows<M(==), V>(client: Client<M, V>, start: int, end: int, retries: nat, k: nat): Option<seq<Row<M, V>>> {
    FetchFrom(client, start + k * 3_600_000, Min(start + (k + 1) * 3_600_000, end), 0, retries)
  }

  /**
   The loop gets to the k-th hour: all hours before were fetched, and none of them was empty after one with
   rows.
   */
  ghost predicate Reached<M, V>(client: Client<M, V>, start: int, end: int, retries: nat, have: bool, k: nat) {
    && start + k * 3_600_000 < end
    && forall j: nat :: j < k ==>
         HourRows(client, start, end, retries, j).Some? &&
         (have || (exists i: nat :: i < j && HourRows(client, start, end, retries, i) != Some([])) ==>
           HourRows(client, start, end, retries, j) != Some([]))
  }

  lemma HourShift<M, V>(client: Client<M, V>, start: int, end: int, retries: nat, k: nat)
    ensures HourRows(client, start + CHUNK, end, retries, k) == HourRows(client, start, end, retries, k + 1)
  {
    assert start + CHUNK + k * 3_600_000 == start + (k + 1) * 3_600_000;
    assert start + CHUNK + (k + 1) * 3_600_000 == start + (k + 1 + 1) * 3_600_000;
  }

  lemma ReachedNext<M, V>(client: Client<M, V>, start: int, end: int, retries: nat, have: bool, k: nat)
    requires HourRows(client, start, end, retries, 0).Some? && !(have && HourRows(client, start, end, retries, 0) == Some([]))
    ensures Reached(client, start + CHUNK, end, retries, have || HourRows(client, start, end, retries, 0) != Some([]), k)
       <==> Reached(client, start, end, retries, have, k + 1)
  {
    hide HourRows;
    var next, had := start + CHUNK, have || HourRows(client, start, end, retries, 0) != Some([]);
    forall j: nat {:trigger HourRows(client, next, end, retries, j)}
      ensures HourRows(client, next, end, retries, j) == HourRows(client, start, end, retries, j + 1)
    {
      HourShift(client, start, end, retries, j);
    }
    if Reached(client, next, end, retries, had, k) {
      forall j: nat | j < k + 1
        ensures HourRows(client, start, end, retries, j).Some?
        ensures have || (exists i: nat :: i < j && HourRows(client, start, end, retries, i) != Some([])) ==>
                  HourRows(client, start, end, retries, j) != Some([])
      {
        if j > 0 {
          assert HourRows(client, next, end, retries, j - 1).Some?;
          if i: nat :| i < j && HourRows(client, start, end, retries, i) != Some([]) {
            if i > 0 {
              assert HourRows(client, next, end, retries, i - 1) != Some([]);
            }
          }
        }
      }
    }
    if Reached(client, start, end, retries, have, k + 1) {
      forall j: nat | j < k
        ensures HourRows(client, next, end, retries, j).Some?
        ensures had || (exists i: nat :: i < j && HourRows(client, next, end, retries, i) != Some([])) ==>
                  HourRows(client, next, end, retries, j) != Some([])
      {
        assert HourRows(client, start, end, retries, j + 1).Some?;
        if i: nat :| i < j && HourRows(client, next, end, retries, i) != Some([]) {
          assert HourRows(client, start, end, retries, i + 1) != Some([]);
        }
      }
    }
  }

  lemma {:induction false} RowsFail<M, V>(client: Client<M, V>, cursor: int, end: int, retries: nat, have: bool)
    ensures RowsFrom(client, cursor, end, retries, have).None? <==>
            exists k: nat :: Reached(client, cursor, end, retries, have, k) && HourRows(client, cursor, end, retries, k).None?
    decreases end - cursor
  {
    hide FetchFrom, Reached;
    if cursor < end {
      var chunkEnd := Min(cursor + CHUNK, end);
      var first := HourRows(client, cursor, end, retries, 0);
      ReachedFirst(client, cursor, end, retries, have);
      if first.Some? && !(have && first == Some([])) {
        RowsFail(client, chunkEnd, end, retries, have || first != Some([]));
        if cursor + CHUNK < end {
          OtherHours(client, cursor, end, retries, have);
        } else {
          NoHours(client, cursor, end, retries, have);
          NoHours(client, end, end, retries, true);
          NoHours(client, end, end, retries, false);
        }
      }
    } else {
      NoHours(client, cursor, end, retries, have);
    }
  }

  lemma ReachedFirst<M, V>(client: Client<M, V>, cursor: int, end: int, retries: nat, have: bool)
    requires cursor < end
    ensures Reached(client, cursor, end, retries, have, 0)
    ensures have && HourRows(client, cursor, end, retries, 0) == Some([]) ==>
              forall k: nat :: Reached(client, cursor, end, retries, have, k) ==> k == 0
    ensures HourRows(client, cursor, end, retries, 0) == FetchFrom(client, cursor, Min(cursor + CHUNK, end), 0, retries)
  {
    hide FetchFrom;
  }

  lemma NoHours<M, V>(client: Client<M, V>, cursor: int, end: int, retries: nat, have: bool)
    requires cursor + CHUNK >= end
    ensures forall k: nat :: Reached(client, cursor, end, retries, have, k) ==> k == 0 && cursor < end
  {
    hide HourRows;
  }

  lemma OtherHours<M, V>(client: Client<M, V>, cursor: int, end: int, retries: nat, have: bool)
    requires HourRows(client, cursor, end, retries, 0).Some? && !(have && HourRows(client, cursor, end, retries, 0) == Some([]))
    ensures (exists k: nat :: Reached(client, cursor, end, retries, have, k) && HourRows(client, cursor, end, retries, k).None?)
       <==> var next, had := cursor + CHUNK, have || HourRows(client, cursor, end, retries, 0) != Some([]);
            exists k: nat :: Reached(client, next, end, retries, had, k) && HourRows(client, next, end, retries, k).None?
  {
    hide HourRows, Reached;
    var next, had := cursor + CHUNK, have || HourRows(client, cursor, end, retries, 0) != Some([]);
    if k: nat :| Reached(client, cursor, end, retries, have, k) && HourRows(client, cursor, end, retries, k).None? {
      ReachedNext(client, cursor, end, retries, have, k - 1);
      HourShift(client, cursor, end, retries, k - 1);
      assert Reached(client, next, end, retries, had, k - 1);
    }
    if k: nat :| Reached(client, next, end, retries, had, k) && HourRows(client, next, end, retries, k).None? {
      ReachedNext(client, cursor, end, retries, have, k);
      HourShift(client, cursor, end, retries, k);
      assert Reached(client, cursor, end, retries, have, k + 1);
    }
  }

  lemma {:induction false} RowsMerge<M, V>(client: Client<M, V>, cursor: int, end: int, retries: nat, have: bool)
    ensures var rows := RowsFrom(client, cursor, end, retries, have);
            rows.Some? ==> MergeRows(rows.value).Some?
    decreases end - cursor
  {
    hide MergeRows, FetchFrom;
    NoMerge<M, V>();
    if cursor < end {
      var chunkEnd := Min(cursor + CHUNK, end);
      FetchMerges(client, cursor, chunkEnd, 0, retries);
      var raw := FetchFrom(client, cursor, chunkEnd, 0, retries);
      if raw.Some? {
        RowsMerge(client, chunkEnd, end, retries, have || raw.value != []);
        var rest := RowsFrom(client, chunkEnd, end, retries, have || raw.value != []);
        if rest.Some? {
          MergeConcat(raw.value, rest.value);
        }
      }
    }
  }

  /**
   An export fails if and only if for some hour that the loop gets to all attempts, the first and every retry,
   fail.
   */
  lemma ExportFailsIff<M, V>(client: Client<M, V>, start: int, end: int, retries: nat)
    ensures ExportFrom(client, start, end, retries, []).None? <==>
            exists k: nat :: Reached(client, start, end, retries, false, k) && AllFail(client, start, end, retries, k)
  {
    hide ExportFrom, RowsFrom, MergeRows, Reached;
    NoMerge<M, V>();
    ExportIsOneMerge(client, start, end, retries, []);
    RowsMerge(client, start, end, retries, false);
    RowsFail(client, start, end, retries, false);
    var rows := RowsFrom(client, start, end, retries, false);
    if rows.Some? {
      assert [] + rows.value == rows.value;
    }
    forall k: nat ensures HourRows(client, start, end, retries, k).None? <==> AllFail(client, start, end, retries, k) {
      HourFails(client, start, end, retries, k);
    }
  }

  lemma HourFails<M, V>(client: Client<M, V>, start: int, end: int, retries: nat, k: nat)
    ensures HourRows(client, start, end, retries, k).None? <==> AllFail(client, start, end, retries, k)
  {
    hide FetchFrom, Answers;
    var i := FetchIsFirst(client, start + k * 3_600_000, Min(start + (k + 1) * 3_600_000, end), 0, retries);
  }

  // ---------------------------------------------------------------- against a store

  /** The stored samples of every series. */
  type Store<!M, V> = M -> seq<Sample<V>>

  ghost predicate Ordered<V>(samples: seq<Sample<V>>) {
    forall i, j :: 0 <= i < j < |samples| ==> samples[i].time <= samples[j].time
  }

  /** The samples in a half-open window. */
  function Window<V>(samples: seq<Sample<V>>, low: int, high: int): seq<Sample<V>> {
    if samples == [] then []
    else
      var before, last := Window(samples[..|samples| - 1], low, high), samples[|samples| - 1];
      if low <= last.time < high then before + [last] else before
  }

  /**
   Rows that report a window of a store: each has samples, and together they have its samples of each series
   in order.
   */
  ghost predicate Reports<M(!new), V>(rows: seq<Row<M, V>>, store: Store<M, V>, low: int, high: int) {
    && (forall k :: 0 <= k < |rows| && WellFormed(rows[k]) ==> RawSamples(rows[k]) != [])
    && forall m :: SamplesOf(rows, m) == Window(store(m), low, high)
  }

  /** A server that answers, when it answers with rows that can be merged, from a store of ordered samples. */
  ghost predicate Serves<M(!new), V>(client: Client<M, V>, store: Store<M, V>) {
    && (forall m :: Ordered(store(m)))
    && forall low, high, k: nat :: client(low, high, k).Some? && MergeRows(client(low, high, k).value).Some? ==>
         Reports(client(low, high, k).value, store, low, high)
  }

  ghost predicate EmptyWindow<M(!new), V>(store: Store<M, V>, low: int, high: int) {
    forall m :: Window(store(m), low, high) == []
  }

  /** Where the export stops: the first chunk without samples after some chunk with samples, or the end. */
  ghost function StopPoint<M(!new), V>(store: Store<M, V>, cursor: int, end: int, have: bool): (stop: int)
    ensures cursor <= stop
    ensures cursor < end ==> stop <= end
    ensures stop < end && cursor < end ==> EmptyWindow(store, stop, Min(stop + CHUNK, end))
    decreases end - cursor
  {
    if cursor >= end then cursor
    else
      var chunkEnd := Min(cursor + CHUNK, end);
      if EmptyWindow(store, cursor, chunkEnd) then
        if have then cursor else StopPoint(store, chunkEnd, end, false)
      else StopPoint(store, chunkEnd, end, true)
  }

  /** A window holds exactly the samples from its start up to before its end, in order. */
  lemma {:induction false} WindowAt<V>(samples: seq<Sample<V>>, low: int, high: int) returns (picks: seq<nat>)
    ensures forall p, q :: 0 <= p < q < |picks| ==> picks[p] < picks[q]
    ensures forall i: nat :: i in picks <==> i < |samples| && low <= samples[i].time < high
    ensures |Window(samples, low, high)| == |picks|
    ensures forall p :: 0 <= p < |picks| ==> picks[p] < |samples| && Window(samples, low, high)[p] == samples[picks[p]]
  {
    picks := [];
    if samples != [] {
      var n := |samples| - 1;
      var front := samples[..n];
      assert forall i :: 0 <= i < n ==> front[i] == samples[i];
      picks := WindowAt(front, low, high);
      assert forall p :: 0 <= p < |picks| ==> picks[p] in picks;
      if low <= samples[n].time < high {
        picks := picks + [n];
      }
    }
  }

  lemma {:induction false} WindowSplit<V>(samples: seq<Sample<V>>, low: int, mid: int, high: int)
    requires Ordered(samples) && low <= mid <= high
    ensures Window(samples, low, high) == Window(samples, low, mid) + Window(samples, mid, high)
  {
    if samples != [] {
      var front, last := samples[..|samples| - 1], samples[|samples| - 1];
      WindowSplit(front, low, mid, high);
      if low <= last.time < mid {
        NothingLater(front, mid, high, last.time);
      }
    }
  }

  lemma {:induction false} NothingLater<V>(samples: seq<Sample<V>>, low: int, high: int, time: int)
    requires time < low && forall i :: 0 <= i < |samples| ==> samples[i].time <= time
    ensures Window(samples, low, high) == []
  {
    if samples != [] {
      NothingLater(samples[..|samples| - 1], low, high, time);
    }
  }

  lemma {:induction false} SamplesConcat<M, V>(a: seq<Row<M, V>>, b: seq<Row<M, V>>, m: M)
    ensures SamplesOf(a + b, m) == SamplesOf(a, m) + SamplesOf(b, m)
  {
    hide RawSamples;
    if b == [] {
      assert a + b == a;
    } else {
      assert (a + b)[..|a + b| - 1] == a + b[..|b| - 1];
      SamplesConcat(a, b[..|b| - 1], m);
    }
  }

  lemma {:induction false} AllWellFormed<M, V>(rows: seq<Row<M, V>>)
    requires MergeRows(rows).Some?
    ensures forall k :: 0 <= k < |rows| ==> WellFormed(rows[k])
  {
    forall k | 0 <= k < |rows| ensures WellFormed(rows[k]) {
      if !WellFormed(rows[k]) {
        MergeFails(rows, k);
      }
    }
  }

  /** A report is empty exactly when the window is. */
  lemma EmptyReport<M(!new), V>(rows: seq<Row<M, V>>, store: Store<M, V>, low: int, high: int)
    requires MergeRows(rows).Some? && Reports(rows, store, low, high)
    ensures rows == [] <==> EmptyWindow(store, low, high)
  {
    hide MergeRows, RawSamples, Window;
    AllWellFormed(rows);
    if rows == [] {
      forall m ensures Window(store(m), low, high) == [] {
        assert SamplesOf(rows, m) == [];
      }
    } else {
      var last := rows[|rows| - 1];
      assert SamplesOf(rows, last.metric) == SamplesOf(rows[..|rows| - 1], last.metric) + RawSamples(last);
      assert Window(store(last.metric), low, high) != [];
    }
  }

  lemma {:induction false} RowsReport<M(!new), V>(
    client: Client<M, V>, store: Store<M, V>, cursor: int, end: int, retries: nat, have: bool, m: M)
    requires Serves(client, store) && RowsFrom(client, cursor, end, retries, have).Some?
    ensures var rows := RowsFrom(client, cursor, end, retries, have).value;
            SamplesOf(rows, m) == Window(store(m), cursor, StopPoint(store, cursor, end, have))
    ensures var rows := RowsFrom(client, cursor, end, retries, have).value;
            (exists k :: 0 <= k < |rows| && rows[k].metric == m) <==> SamplesOf(rows, m) != []
    decreases end - cursor
  {
    hide MergeRows, FetchFrom, Window, EmptyWindow, SamplesOf;
    var stop := StopPoint(store, cursor, end, have);
    if cursor >= end {
      EmptyInterval(store(m), cursor, cursor);
      NoRows<M, V>(m);
    } else {
      var chunkEnd := Min(cursor + CHUNK, end);
      FetchMerges(client, cursor, chunkEnd, 0, retries);
      var raw := FetchFrom(client, cursor, chunkEnd, 0, retries).value;
      EmptyReport(raw, store, cursor, chunkEnd);
      if raw == [] && have {
        EmptyInterval(store(m), cursor, cursor);
        NoRows<M, V>(m);
      } else {
        var rest := RowsFrom(client, chunkEnd, end, retries, have || raw != []).value;
        RowsReport(client, store, chunkEnd, end, retries, have || raw != [], m);
        SamplesConcat(raw, rest, m);
        WindowSplit(store(m), cursor, chunkEnd, stop);
        NamedHasSamples(raw, store, cursor, chunkEnd, m);
        NamedConcat(raw, rest, m);
      }
    }
  }

  lemma NoRows<M, V>(m: M)
    ensures SamplesOf<M, V>([], m) == []
  {
  }

  lemma NamedConcat<M, V>(a: seq<Row<M, V>>, b: seq<Row<M, V>>, m: M)
    ensures (exists k :: 0 <= k < |a + b| && (a + b)[k].metric == m)
       <==> (exists k :: 0 <= k < |a| && a[k].metric == m) || (exists k :: 0 <= k < |b| && b[k].metric == m)
  {
    if k :| 0 <= k < |b| && b[k].metric == m {
      assert (a + b)[|a| + k].metric == m;
    }
    if k :| 0 <= k < |a| && a[k].metric == m {
      assert (a + b)[k].metric == m;
    }
  }

  lemma {:induction false} EmptyInterval<V>(samples: seq<Sample<V>>, low: int, high: int)
    requires high <= low
    ensures Window(samples, low, high) == []
  {
    if samples != [] {
      EmptyInterval(samples[..|samples| - 1], low, high);
    }
  }

  lemma NamedHasSamples<M(!new), V>(rows: seq<Row<M, V>>, store: Store<M, V>, low: int, high: int, m: M)
    requires MergeRows(rows).Some? && Reports(rows, store, low, high)
    ensures (exists k :: 0 <= k < |rows| && rows[k].metric == m) <==> SamplesOf(rows, m) != []
  {
    hide MergeRows, Window;
    AllWellFormed(rows);
    if k :| 0 <= k < |rows| && rows[k].metric == m {
      SomeSamples(rows, k);
    } else {
      NoSamples(rows, m);
    }
  }

  lemma {:induction false} SomeSamples<M, V>(rows: seq<Row<M, V>>, k: nat)
    requires k < |rows| && WellFormed(rows[k]) && RawSamples(rows[k]) != []
    ensures SamplesOf(rows, rows[k].metric) != []
  {
    hide RawSamples;
    if k < |rows| - 1 {
      SomeSamples(rows[..|rows| - 1], k);
    }
  }

  /** A list of series has a series exactly when it has samples, and then its non-null samples in order. */
  ghost predicate Shows<M, V>(entries: seq<Entry<M, V>>, m: M, samples: seq<Sample<V>>) {
    var i := Find(entries, m);
    (i < |entries| <==> samples != []) && (i < |entries| ==> (entries[i].timestamps, entries[i].values) == Kept(samples))
  }

  /**
   For every store: if the export completes, it holds one entry for each series with a sample from the start
   up to the stop point, with exactly the non-null samples of that stretch in order, however many
   attempts each chunk took.
   */
  lemma ExportRefinesStore<M(!new), V>(client: Client<M, V>, store: Store<M, V>, start: int, end: int, retries: nat, m: M)
    requires Serves(client, store) && ExportFrom(client, start, end, retries, []).Some?
    ensures var entries := ExportFrom(client, start, end, retries, []).value;
            Distinct(entries) && Shows(entries, m, Window(store(m), start, StopPoint(store, start, end, false)))
  {
    hide Serves, Window, SamplesOf, RowsFrom, ExportFrom, Find;
    NoMerge<M, V>();
    ExportIsOneMerge(client, start, end, retries, []);
    var rows := RowsFrom(client, start, end, retries, false).value;
    assert [] + rows == rows;
    RowsReport(client, store, start, end, retries, false, m);
    MergeHolds(rows, m);
    MergeDistinct(rows);
  }

  lemma NoMerge<M, V>()
    ensures MergeRows<M, V>([]) == Some([])
  {
  }

  // ---------------------------------------------------------------- when nothing is missed

  /** The k-th hour of the range holds no sample. */
  ghost predicate EmptyChunk<M(!new), V>(store: Store<M, V>, start: int, end: int, k: nat) {
    EmptyWindow(store, start + k * 3_600_000, Min(start + (k + 1) * 3_600_000, end))
  }

  /** Once an empty hour has followed an hour with samples, no sample comes any more before the end. */
  ghost predicate GapFree<M(!new), V>(store: Store<M, V>, start: int, end: int) {
    forall i: nat, j: nat, k: nat :: i < j < k && start + k * 3_600_000 < end ==>
      !EmptyChunk(store, start, end, i) && EmptyChunk(store, start, end, j) ==> EmptyChunk(store, start, end, k)
  }

  /** The same, counted from a chunk where samples may already have come. */
  ghost predicate GapFreeFrom<M(!new), V>(store: Store<M, V>, cursor: int, end: int, have: bool) {
    forall j: nat, k: nat :: j < k && cursor + k * CHUNK < end && EmptyChunk(store, cursor, end, j) ==>
      (have || exists i: nat :: i < j && !EmptyChunk(store, cursor, end, i)) ==> EmptyChunk(store, cursor, end, k)
  }

  lemma ChunkShift<M(!new), V>(store: Store<M, V>, cursor: int, end: int, k: nat)
    ensures EmptyChunk(store, cursor + CHUNK, end, k) == EmptyChunk(store, cursor, end, k + 1)
  {
    assert cursor + CHUNK + k * CHUNK == cursor + (k + 1) * CHUNK;
    assert cursor + CHUNK + (k + 1) * CHUNK == cursor + (k + 1 + 1) * CHUNK;
  }

  /** A stretch is empty exactly when all its chunks are. */
  lemma {:induction false} ChunksEmpty<M(!new), V>(store: Store<M, V>, cursor: int, end: int)
    requires forall m :: Ordered(store(m))
    ensures EmptyWindow(store, cursor, end) <==> forall k: nat :: cursor + k * CHUNK < end ==> EmptyChunk(store, cursor, end, k)
    decreases end - cursor
  {
    hide Window, EmptyWindow, EmptyChunk;
    if cursor < end {
      var chunkEnd := Min(cursor + CHUNK, end);
      FirstChunk(store, cursor, end);
      ChunksEmpty(store, chunkEnd, end);
      if cursor + CHUNK < end {
        forall k: nat {:trigger EmptyChunk(store, chunkEnd, end, k)}
          ensures EmptyChunk(store, chunkEnd, end, k) == EmptyChunk(store, cursor, end, k + 1)
        {
          ChunkShift(store, cursor, end, k);
        }
        if forall k: nat :: cursor + k * CHUNK < end ==> EmptyChunk(store, cursor, end, k) {
          forall k: nat | chunkEnd + k * CHUNK < end ensures EmptyChunk(store, chunkEnd, end, k) {
            assert EmptyChunk(store, cursor, end, k + 1);
          }
        }
        if EmptyWindow(store, chunkEnd, end) && EmptyChunk(store, cursor, end, 0) {
          forall k: nat | cursor + k * CHUNK < end ensures EmptyChunk(store, cursor, end, k) {
            if k > 0 {
              assert EmptyChunk(store, chunkEnd, end, k - 1);
            }
          }
        }
      }
    } else {
      NothingThere(store, cursor, end);
    }
  }

  lemma NothingThere<M(!new), V>(store: Store<M, V>, low: int, high: int)
    requires high <= low
    ensures EmptyWindow(store, low, high)
  {
    forall m ensures Window(store(m), low, high) == [] {
      EmptyInterval(store(m), low, high);
    }
  }

  lemma FirstChunk<M(!new), V>(store: Store<M, V>, cursor: int, end: int)
    requires cursor < end && forall m :: Ordered(store(m))
    ensures EmptyChunk(store, cursor, end, 0) == EmptyWindow(store, cursor, Min(cursor + CHUNK, end))
    ensures EmptyWindow(store, cursor, end) <==>
            EmptyChunk(store, cursor, end, 0) && EmptyWindow(store, Min(cursor + CHUNK, end), end)
  {
    hide Window;
    var mid := Min(cursor + CHUNK, end);
    forall m ensures Window(store(m), cursor, end) == Window(store(m), cursor, mid) + Window(store(m), mid, end) {
      WindowSplit(store(m), cursor, mid, end);
    }
  }

  /** The early stop leaves nothing behind exactly when there is no gap. */
  lemma {:induction false} StopLeavesNothing<M(!new), V>(store: Store<M, V>, cursor: int, end: int, have: bool)
    requires forall m :: Ordered(store(m))
    ensures EmptyWindow(store, StopPoint(store, cursor, end, have), end) <==> GapFreeFrom(store, cursor, end, have)
    decreases end - cursor
  {
    hide Window, EmptyWindow, EmptyChunk, GapFreeFrom;
    if cursor >= end {
      NothingThere(store, cursor, end);
      LastChunk(store, cursor, end, have);
    } else {
      var chunkEnd := Min(cursor + CHUNK, end);
      FirstChunk(store, cursor, end);
      StopLeavesNothing(store, chunkEnd, end, have || !EmptyChunk(store, cursor, end, 0));
      if EmptyChunk(store, cursor, end, 0) && have {
        ChunksEmpty(store, cursor, end);
        GapAtOnce(store, cursor, end);
      } else if cursor + CHUNK < end {
        GapFreeStep(store, cursor, end, have);
      } else {
        LastChunk(store, cursor, end, have);
        LastChunk(store, chunkEnd, end, true);
        LastChunk(store, chunkEnd, end, false);
      }
    }
  }

  lemma LastChunk<M(!new), V>(store: Store<M, V>, cursor: int, end: int, have: bool)
    requires cursor + CHUNK >= end
    ensures GapFreeFrom(store, cursor, end, have)
  {
    hide EmptyChunk;
    forall k: nat | k > 0 ensures cursor + k * CHUNK >= end {
      assert k * CHUNK >= CHUNK;
    }
  }

  lemma GapAtOnce<M(!new), V>(store: Store<M, V>, cursor: int, end: int)
    requires EmptyChunk(store, cursor, end, 0)
    ensures GapFreeFrom(store, cursor, end, true) <==>
            forall k: nat :: cursor + k * CHUNK < end ==> EmptyChunk(store, cursor, end, k)
  {
    hide EmptyChunk;
  }

  lemma GapFreeStep<M(!new), V>(store: Store<M, V>, cursor: int, end: int, have: bool)
    requires cursor < end && !(have && EmptyChunk(store, cursor, end, 0))
    ensures GapFreeFrom(store, cursor, end, have) <==>
            GapFreeFrom(store, cursor + CHUNK, end, have || !EmptyChunk(store, cursor, end, 0))
  {
    hide EmptyChunk;
    var next, had := cursor + CHUNK, have || !EmptyChunk(store, cursor, end, 0);
    forall k: nat {:trigger EmptyChunk(store, next, end, k)}
      ensures EmptyChunk(store, next, end, k) == EmptyChunk(store, cursor, end, k + 1)
    {
      ChunkShift(store, cursor, end, k);
    }
    if GapFreeFrom(store, cursor, end, have) {
      forall j: nat, k: nat | j < k && next + k * CHUNK < end && EmptyChunk(store, next, end, j) &&
        (had || exists i: nat :: i < j && !EmptyChunk(store, next, end, i))
        ensures EmptyChunk(store, next, end, k)
      {
        assert EmptyChunk(store, cursor, end, j + 1);
        if i: nat :| !had && i < j && !EmptyChunk(store, next, end, i) {
          assert !EmptyChunk(store, cursor, end, i + 1);
        }
        assert EmptyChunk(store, cursor, end, k + 1);
      }
    }
    if GapFreeFrom(store, next, end, had) {
      forall j: nat, k: nat | j < k && cursor + k * CHUNK < end && EmptyChunk(store, cursor, end, j) &&
        (have || exists i: nat :: i < j && !EmptyChunk(store, cursor, end, i))
        ensures EmptyChunk(store, cursor, end, k)
      {
        assert j > 0;
        assert EmptyChunk(store, next, end, j - 1);
        if i: nat :| !had && i < j && !EmptyChunk(store, cursor, end, i) {
          assert !EmptyChunk(store, next, end, i - 1);
        }
        assert EmptyChunk(store, next, end, k - 1);
      }
    }
  }

  lemma GapFreeIs<M(!new), V>(store: Store<M, V>, start: int, end: int)
    ensures GapFree(store, start, end) <==> GapFreeFrom(store, start, end, false)
  {
    hide EmptyChunk;
  }

  ghost predicate NoNulls<M(!new), V>(store: Store<M, V>) {
    forall m, i :: 0 <= i < |store(m)| ==> store(m)[i].value.Some?
  }

  /**
   For every store: the rows that the loop collects hold every sample of the range if and only if the store has no gap
   in it. Then the export is that of a single request for the whole range; and where no sample is null, only then.
   */
  lemma ExportComplete<M(!new), V>(client: Client<M, V>, store: Store<M, V>, start: int, end: int, retries: nat)
    requires Serves(client, store) && ExportFrom(client, start, end, retries, []).Some?
    ensures RowsFrom(client, start, end, retries, false).Some?
    ensures var entries, rows := ExportFrom(client, start, end, retries, []).value, RowsFrom(client, start, end, retries, false).value;
            ((forall m :: SamplesOf(rows, m) == Window(store(m), start, end)) <==> GapFree(store, start, end)) &&
            (GapFree(store, start, end) ==> forall m :: Shows(entries, m, Window(store(m), start, end))) &&
            (NoNulls(store) && (forall m :: Shows(entries, m, Window(store(m), start, end))) ==> GapFree(store, start, end))
  {
    hide Window, SamplesOf, RowsFrom, ExportFrom, Find, GapFree, Shows, Kept;
    var stop := StopPoint(store, start, end, false);
    NoMerge<M, V>();
    ExportIsOneMerge(client, start, end, retries, []);
    var entries := ExportFrom(client, start, end, retries, []).value;
    ServesOrdered(client, store);
    hide Serves;
    GapFreeIs(store, start, end);
    StopLeavesNothing(store, start, end, false);
    forall m
      ensures Shows(entries, m, Window(store(m), start, stop))
      ensures SamplesOf(RowsFrom(client, start, end, retries, false).value, m) == Window(store(m), start, stop)
      ensures Window(store(m), start, end) == Window(store(m), start, stop) + Window(store(m), stop, end)
      ensures NoNulls(store) && Shows(entries, m, Window(store(m), start, end)) ==> Window(store(m), stop, end) == []
    {
      ExportRefinesStore(client, store, start, end, retries, m);
      RowsReport(client, store, start, end, retries, false, m);
      SplitAtStop(store(m), start, stop, end);
      if NoNulls(store) && Shows(entries, m, Window(store(m), start, end)) {
        SameShown(store, entries, m, start, stop, end);
      }
    }
  }

  lemma ServesOrdered<M(!new), V>(client: Client<M, V>, store: Store<M, V>)
    requires Serves(client, store)
    ensures forall m :: Ordered(store(m))
  {
  }

  lemma SplitAtStop<V>(samples: seq<Sample<V>>, start: int, stop: int, end: int)
    requires Ordered(samples) && start <= stop && (start < end ==> stop <= end)
    requires start >= end ==> stop == start
    ensures Window(samples, start, end) == Window(samples, start, stop) + Window(samples, stop, end)
  {
    if start < end {
      WindowSplit(samples, start, stop, end);
    } else {
      EmptyInterval(samples, start, end);
      EmptyInterval(samples, start, stop);
    }
  }

  /** Series that show the samples up to the stop point and those of the whole range leave none between. */
  lemma SameShown<M(!new), V>(store: Store<M, V>, entries: seq<Entry<M, V>>, m: M, start: int, stop: int, end: int)
    requires NoNulls(store)
    requires Window(store(m), start, end) == Window(store(m), start, stop) + Window(store(m), stop, end)
    requires Shows(entries, m, Window(store(m), start, stop)) && Shows(entries, m, Window(store(m), start, end))
    ensures Window(store(m), stop, end) == []
  {
    hide Window, Find, Kept;
    WindowAmong(store(m), start, stop);
    WindowAmong(store(m), start, end);
    KeptAll(Window(store(m), start, stop));
    KeptAll(Window(store(m), start, end));
  }

  lemma {:induction false} WindowAmong<V>(samples: seq<Sample<V>>, low: int, high: int)
    ensures forall i :: 0 <= i < |Window(samples, low, high)| ==> Window(samples, low, high)[i] in samples
  {
    if samples != [] {
      WindowAmong(samples[..|samples| - 1], low, high);
      assert samples == samples[..|samples| - 1] + [samples[|samples| - 1]];
    }
  }

  lemma {:induction false} KeptAll<V>(samples: seq<Sample<V>>)
    requires forall i :: 0 <= i < |samples| ==> samples[i].value.Some?
    ensures |Kept(samples).0| == |samples|
  {
    if samples != [] {
      KeptAll(samples[..|samples| - 1]);
    }
  }

  /** A store of a single series. */
  function OneSeries<M(==), V>(m: M, samples: seq<Sample<V>>): Store<M, V> {
    (n: M) => if n == m then samples else []
  }

  /** The row of a series for a stretch of its samples; no row if there are none. */
  function RowsOf<M, V>(m: M, samples: seq<Sample<V>>): (rows: seq<Row<M, V>>)
    ensures samples == [] ==> rows == []
    ensures samples != [] ==> |rows| == 1 && rows[0].metric == m && WellFormed(rows[0]) && RawSamples(rows[0]) == samples
  {
    if samples == [] then []
    else
      [Columns(m, seq(|samples|, i requires 0 <= i < |samples| => samples[i].time),
        seq(|samples|, i requires 0 <= i < |samples| => samples[i].value))]
  }

  /** A client that answers every attempt from that store. */
  function OneSeriesClient<M, V>(m: M, samples: seq<Sample<V>>): Client<M, V> {
    (low: int, high: int, k: nat) => Some(RowsOf(m, Window(samples, low, high)))
  }

  /** It serves the store, and every export from it completes. */
  lemma OneSeriesServed<M(!new), V>(m: M, samples: seq<Sample<V>>, start: int, end: int, retries: nat)
    requires Ordered(samples)
    ensures Serves(OneSeriesClient(m, samples), OneSeries(m, samples))
    ensures ExportFrom(OneSeriesClient(m, samples), start, end, retries, []).Some?
  {
    var client, store := OneSeriesClient(m, samples), OneSeries(m, samples);
    hide Window, RowsOf, RawSamples;
    forall low, high, k: nat ensures Reports(client(low, high, k).value, store, low, high) {
      RowsOfReport(m, samples, low, high);
    }
    hide ExportFrom, Serves, OneSeriesClient;
    AlwaysExports(m, samples, start, end, retries, []);
  }

  lemma RowsOfReport<M(!new), V>(m: M, samples: seq<Sample<V>>, low: int, high: int)
    ensures Reports(RowsOf(m, Window(samples, low, high)), OneSeries(m, samples), low, high)
    ensures MergeRows(RowsOf(m, Window(samples, low, high))).Some?
  {
    hide Window, RawSamples;
    var window, store := Window(samples, low, high), OneSeries(m, samples);
    var rows := RowsOf(m, window);
    NoWindow<V>(low, high);
    NoMerge<M, V>();
    forall n ensures SamplesOf(rows, n) == Window(store(n), low, high) {
      NoRows<M, V>(n);
      if rows != [] {
        assert rows[..|rows| - 1] == [] && [] + RawSamples(rows[0]) == RawSamples(rows[0]);
      }
    }
    if rows != [] {
      assert rows[..|rows| - 1] == [];
    }
  }

  lemma NoWindow<V>(low: int, high: int)
    ensures Window<V>([], low, high) == []
  {
  }

  lemma {:induction false} AlwaysExports<M(!new), V>(
    m: M, samples: seq<Sample<V>>, cursor: int, end: int, retries: nat, entries: seq<Entry<M, V>>)
    ensures ExportFrom(OneSeriesClient(m, samples), cursor, end, retries, entries).Some?
    decreases end - cursor
  {
    hide Window, RowsOf, MergeRows, Reports;
    if cursor < end {
      var client, chunkEnd := OneSeriesClient(m, samples), Min(cursor + CHUNK, end);
      RowsOfReport(m, samples, cursor, chunkEnd);
      var raw := FetchFrom(client, cursor, chunkEnd, 0, retries).value;
      var rows := MergeRows(raw).value;
      AlwaysExports(m, samples, chunkEnd, end, retries, if rows == [] then entries else ExtendAll(entries, rows));
    }
  }

  /** Two samples of a series with a silent hour between theirs. */
  function SilentHour<V>(first: V, last: V): seq<Sample<V>> {
    [Sample(0, Some(first)), Sample(2 * CHUNK, Some(last))]
  }

  /**
   One silent hour: whatever a client answers from a store of that series, the sample after the hour is not exported.
   OneSeriesServed gives such a client.
   */
  lemma SilentHourLoses<M(!new), V>(client: Client<M, V>, m: M, first: V, last: V, retries: nat)
    requires Serves(client, OneSeries(m, SilentHour(first, last))) && ExportFrom(client, 0, 3 * CHUNK, retries, []).Some?
    ensures !GapFree(OneSeries(m, SilentHour(first, last)), 0, 3 * CHUNK)
    ensures var entries := ExportFrom(client, 0, 3 * CHUNK, retries, []).value;
            var i := Find(entries, m);
            i < |entries| && entries[i].timestamps == [0] && entries[i].values == [first]
  {
    hide Serves, ExportFrom, Find, Window, GapFree, Kept;
    var store := OneSeries(m, SilentHour(first, last));
    SilentWindows(first, last);
    forall n ensures Window(store(n), CHUNK, 2 * CHUNK) == [] {
      NoWindow<V>(CHUNK, 2 * CHUNK);
    }
    StopsAfterFirst(store, m);
    ServesOrdered(client, store);
    StopLeavesNothing(store, 0, 3 * CHUNK, false);
    GapFreeIs(store, 0, 3 * CHUNK);
    assert !EmptyWindow(store, CHUNK, 3 * CHUNK) by { assert Window(store(m), CHUNK, 3 * CHUNK) != []; }
    ExportRefinesStore(client, store, 0, 3 * CHUNK, retries, m);
    KeptOne(first);
  }

  lemma SilentWindows<V>(first: V, last: V)
    ensures Window(SilentHour(first, last), 0, CHUNK) == [Sample(0, Some(first))]
    ensures Window(SilentHour(first, last), CHUNK, 2 * CHUNK) == []
    ensures Window(SilentHour(first, last), CHUNK, 3 * CHUNK) == [Sample(2 * CHUNK, Some(last))]
  {
    hide Window;
    WindowOfTwo(first, last, 0, CHUNK);
    WindowOfTwo(first, last, CHUNK, 2 * CHUNK);
    WindowOfTwo(first, last, CHUNK, 3 * CHUNK);
  }

  lemma WindowOfTwo<V>(first: V, last: V, low: int, high: int)
    ensures Window(SilentHour(first, last), low, high)
         == (if low <= 0 < high then [Sample(0, Some(first))] else [])
            + (if low <= 2 * CHUNK < high then [Sample(2 * CHUNK, Some(last))] else [])
  {
    var samples := SilentHour(first, last);
    assert samples[..1] == [Sample(0, Some(first))] && samples[..1][..0] == [];
    assert Window(samples[..1], low, high) == if low <= 0 < high then [Sample(0, Some(first))] else [];
  }

  lemma StopsAfterFirst<M(!new), V>(store: Store<M, V>, m: M)
    requires Window(store(m), 0, CHUNK) != [] && forall n :: Window(store(n), CHUNK, 2 * CHUNK) == []
    ensures StopPoint(store, 0, 3 * CHUNK, false) == CHUNK
  {
    hide Window;
    assert !EmptyWindow(store, 0, CHUNK);
    assert EmptyWindow(store, CHUNK, 2 * CHUNK);
    assert StopPoint(store, CHUNK, 3 * CHUNK, true) == CHUNK;
  }

  lemma KeptOne<V>(v: V)
    ensures Kept([Sample(0, Some(v))]).0 == [0] && Kept([Sample(0, Some(v))]).1 == [v]
  {
    var samples := [Sample(0, Some(v))];
    assert samples[..|samples| - 1] == [];
    assert Kept(samples[..|samples| - 1]) == ([], []);
    assert Kept(samples).0 == [] + [0] && Kept(samples).1 == [] + [v];
  }

  /** Up to the stop point, every chunk after the first one with samples has samples. */
  lemma {:induction false} NoGapBeforeStop<M(!new), V>(store: Store<M, V>, cursor: int, end: int, have: bool, k: nat)
    requires (forall m :: Ordered(store(m))) && cursor + k * CHUNK < StopPoint(store, cursor, end, have) && cursor < end
    ensures var low := cursor + k * CHUNK;
            EmptyWindow(store, low, Min(low + CHUNK, end)) ==> !have && EmptyWindow(store, cursor, low)
    decreases k
  {
    hide Window;
    var chunkEnd := Min(cursor + CHUNK, end);
    if k == 0 {
      forall m ensures Window(store(m), cursor, cursor) == [] {
        EmptyInterval(store(m), cursor, cursor);
      }
    } else {
      var low := cursor + k * CHUNK;
      assert low == cursor + CHUNK + (k - 1) * CHUNK;
      assert chunkEnd == cursor + CHUNK;
      NoGapBeforeStop(store, chunkEnd, end, have || !EmptyWindow(store, cursor, chunkEnd), k - 1);
      if EmptyWindow(store, low, Min(low + CHUNK, end)) {
        forall m ensures Window(store(m), cursor, low) == [] {
          WindowSplit(store(m), cursor, chunkEnd, low);
        }
      }
    }
  }
}

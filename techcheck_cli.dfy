/** The command-line driver (oiio_techcheck_cli.py): scan the directory,
    reduce every sequence record with `find_min_max`, `find_nan_frames` and
    `find_inf_frames`, then save one report per record that has frames.
    Argument parsing is left out; the directory, the output directory and
    the file system are parameters. */
module Cli {
  import opened Wrappers
  import opened PyDict
  import opened Records
  import opened Scan
  import opened Reduce
  import opened Report
  import opened Stats

  /** What the three reductions demand of one record: with frames, every
      frame has three 'max' and 'min' tokens and countable 'nan' and 'inf'
      tokens. */
  predicate Ready(rec: SeqRecord)
  {
    rec.frames.keys != [] ==>
      ChannelsReady(rec.frames) && CountsReady(rec.frames, NaN) && CountsReady(rec.frames, Inf)
  }

  /** The record after the three reductions, in the driver's order. */
  function Reduced(rec: SeqRecord): (r: SeqRecord)
    requires Ready(rec)
    ensures r.frames == rec.frames && r.path == rec.path
  {
    WithInfs(WithNans(FindMinMax(rec)))
  }

  /** Every key other than 'path' holds a record ready for the reductions. */
  predicate TableReady(t: Table)
  {
    forall k :: k in t.vals && k != "path" ==> t.vals[k].SeqValue? && Ready(t.vals[k].rec)
  }

  /** The value the driver leaves under key `k`. */
  function ReducedValue(k: string, v: Value): Value
    requires k != "path" ==> v.SeqValue? && Ready(v.rec)
  {
    if k == "path" then v else SeqValue(Reduced(v.rec))
  }

  /** The table after the driver's loop: same keys in the same order, every
      record reduced, 'path' untouched. */
  function ReducedTable(t: Table): Table
    requires TableReady(t)
  {
    MapValues(t, ReducedValue)
  }

  /** The body of the driver's loop for one sequence record. */
  method ReduceRecord(rec: SeqRecord) returns (r: SeqRecord)
    requires Ready(rec)
    ensures r == Reduced(rec)
  {
    r := FindMinMax(rec);
    r := FindNanFrames(r);
    r := FindInfFrames(r);
  }

  /** The driver's loop after its first `i` keys. */
  function ReducedUpTo(t: Table, i: nat): Table
    requires TableReady(t) && i <= |t.keys|
  {
    UpdatedUpTo(t, ReducedValue, i)
  }

  /** Step `i` of the driver's loop: the key still holds its scanned value,
      which is a record ready for the reductions unless the key is 'path';
      'path' is skipped and any other key gets its reduced record. */
  lemma ReducedUpToStep(t: Table, i: nat, table: Table)
    requires t.Valid() && TableReady(t) && i < |t.keys| && table == ReducedUpTo(t, i)
    ensures var k := t.keys[i];
      k in table.vals && table.vals[k] == t.vals[k]
      && (k == "path" ==> ReducedUpTo(t, i + 1) == table)
      && (k != "path" ==>
            table.vals[k].SeqValue? && Ready(table.vals[k].rec)
            && ReducedUpTo(t, i + 1) == Set(table, k, SeqValue(Reduced(table.vals[k].rec))))
  {
    var k := t.keys[i];
    UpdatedUpToStep(t, ReducedValue, i);
    if k == "path" {
      assert table.vals[k := table.vals[k]] == table.vals;
    }
  }

  /** The driver's loop: for each key other than 'path', in the dict's
      order, `seqdict[key]` becomes the record after `find_min_max`,
      `find_nan_frames` and `find_inf_frames`. Assigning to an existing key
      while iterating keeps the key order. */
  method ReduceRecords(t: Table) returns (table: Table)
    requires t.Valid() && TableReady(t)
    ensures table == ReducedTable(t)
  {
    UpdatedUpToEnds(t, ReducedValue);
    table := t;
    var i := 0;
    while i < |table.keys|
      invariant 0 <= i <= |t.keys| && table.keys == t.keys && table == ReducedUpTo(t, i)
    {
      var key := table.keys[i];
      ReducedUpToStep(t, i, table);
      if key != "path" {
        var rec := ReduceRecord(table.vals[key].rec);
        table := Set(table, key, SeqValue(rec));
      }
      i := i + 1;
    }
  }

  /** The driver (oiio_techcheck_cli.py): `seq_stats_checker(dirpath)`,
      the reduction loop, then `save_techchecks(seqdict, outpath)`. */
  method RunChecks(env: Env, dirpath: string, outpath: string)
    returns (table: Table, writes: seq<(string, SeqRecord)>)
    requires ScanReadable(env, dirpath)
    requires TableReady(Filter(ScanTable(env, dirpath), Truthy))
    ensures table == ReducedTable(Filter(ScanTable(env, dirpath), Truthy))
    ensures Savable(table, table.keys)
    ensures writes == Writes(table, outpath, table.keys)
  {
    table := SeqStatsChecker(env, dirpath);
    ReducedTableShaped(table);
    table := ReduceRecords(table);
    writes := SaveTechchecks(table, outpath);
  }

  /** Reducing keeps the table's shape: the same keys in the same order,
      'path' with the directory, and a record with the same frames and path
      under every other key. */
  lemma ReducedTableShaped(t: Table)
    requires Shaped(t) && TableReady(t)
    ensures ReducedTable(t).keys == t.keys
    ensures Shaped(ReducedTable(t))
    ensures Savable(ReducedTable(t), t.keys)
    ensures forall k :: k in t.vals && k != "path" ==>
      ReducedTable(t).vals[k].rec.frames == t.vals[k].rec.frames
      && ReducedTable(t).vals[k].rec.path == t.vals[k].rec.path
  {
  }

  /** Under every key other than 'path', the reduced record of a sequence
      with frames carries all four results: the per-channel maximum and
      minimum and the flagged NaN and Inf frames; a record without frames is
      left as it was. */
  lemma ReducedRecord(t: Table, k: string)
    requires TableReady(t) && k in t.vals && k != "path"
    ensures var rec := t.vals[k].rec;
      var r := ReducedTable(t).vals[k].rec;
      (rec.frames.keys == [] ==> r == rec)
      && (rec.frames.keys != [] ==>
            r.maximum == Some(Maxima(rec.frames)) && r.minimum == Some(Minima(rec.frames))
            && r.nans == Some(FlaggedAmong(rec.frames, NaN, rec.frames.keys))
            && r.infs == Some(FlaggedAmong(rec.frames, Inf, rec.frames.keys)))
  {
  }

  /** Every report the driver writes holds a record with all four results,
      and a report is written for each sequence that has frames. */
  lemma ReportsComplete(env: Env, dirpath: string, outpath: string)
    requires ScanReadable(env, dirpath)
    requires TableReady(Filter(ScanTable(env, dirpath), Truthy))
    ensures var t := ReducedTable(Filter(ScanTable(env, dirpath), Truthy));
      Savable(t, t.keys)
      && (forall w :: w in Writes(t, outpath, t.keys) ==>
            w.1.maximum.Some? && w.1.minimum.Some? && w.1.nans.Some? && w.1.infs.Some?)
      && (forall k :: k in t.keys && k != "path" && t.vals[k].rec.frames.keys != [] ==>
            (ReportPath(outpath, t.vals[k].rec), t.vals[k].rec) in Writes(t, outpath, t.keys))
  {
    var t0 := Filter(ScanTable(env, dirpath), Truthy);
    ScanIsShaped(env, dirpath);
    ReducedTableShaped(t0);
    var t := ReducedTable(t0);
    WritesMembers(t, outpath, t.keys);
    forall w | w in Writes(t, outpath, t.keys)
      ensures w.1.maximum.Some? && w.1.minimum.Some? && w.1.nans.Some? && w.1.infs.Some?
    {
      var k :| k in t.keys && k != "path" && t.vals[k].rec.frames.keys != []
        && w == (ReportPath(outpath, t.vals[k].rec), t.vals[k].rec);
      ReducedRecord(t0, k);
    }
  }
}

/** The skip rule and file naming of `save_techchecks` (oiio_techcheck.py):
    one JSON report per sequence record that has frames, named after the
    stem of the record's path. Opening the file and `json.dump` are left
    out; the model yields the list of (file path, record) writes in
    order. */
module Report {
  import opened PyStr
  import opened PyPath
  import opened PyDict
  import opened Records

  /** `"{0}_{1}.json".format(outfilename, "techcheck")` with
      `outfilename = os.path.basename(rec['path']).split('.')[0]`. */
  function ReportName(rec: SeqRecord): string
  {
    Stem(rec.path) + "_techcheck.json"
  }

  /** `os.path.join(outpath, ...)` of the report name. */
  function ReportPath(outpath: string, rec: SeqRecord): string
  {
    PathJoin(outpath, ReportName(rec))
  }

  /** The characters of the report name: no '/' at all, and its first '.'
      is the one of `.json`. */
  lemma ReportNameChars(rec: SeqRecord)
    ensures '/' !in ReportName(rec)
    ensures |ReportName(rec)| == |Stem(rec.path)| + 15
    ensures ReportName(rec)[|Stem(rec.path)| + 10] == '.'
    ensures '.' !in ReportName(rec)[..|Stem(rec.path)| + 10]
    ensures ReportName(rec)[..|Stem(rec.path)| + 10] == Stem(rec.path) + "_techcheck"
  {
    var stem := Stem(rec.path);
    var name := ReportName(rec);
    var tail := "_techcheck.json";
    StemShape(rec.path);
    assert name == stem + tail;
    assert name[..|stem| + 10] == stem + "_techcheck";
    assert '/' !in tail && '.' !in "_techcheck" && tail[10] == '.';
  }

  /** The report name is the stem of the record's path, with no '/' and no
      '.', then `_techcheck.json`; the report lands directly in the output
      directory, and the stem of the report's path is the record's stem
      followed by `_techcheck`. */
  lemma ReportNameShape(outpath: string, rec: SeqRecord)
    ensures '/' !in Stem(rec.path) && '.' !in Stem(rec.path)
    ensures Basename(ReportPath(outpath, rec)) == ReportName(rec)
    ensures Stem(ReportPath(outpath, rec)) == Stem(rec.path) + "_techcheck"
  {
    StemShape(rec.path);
    ReportNameChars(rec);
    BasenameOfJoin(outpath, ReportName(rec));
    FindOrAt(ReportName(rec), '.', |Stem(rec.path)| + 10);
  }

  /** What `save_techchecks` demands: every key other than 'path' holds a
      sequence record (`seqdict[key]['frames']` on the directory string
      would raise a TypeError). */
  predicate Savable(t: Table, keys: seq<string>)
  {
    forall k :: k in keys ==> k in t.vals && (k != "path" ==> t.vals[k].SeqValue?)
  }

  /** The key is reported: not 'path', and its record has frames. */
  predicate Reported(t: Table, k: string)
    requires Savable(t, [k])
  {
    k != "path" && t.vals[k].rec.frames.keys != []
  }

  /** The writes of the loop over `keys`, in order. */
  function Writes(t: Table, outpath: string, keys: seq<string>): seq<(string, SeqRecord)>
    requires Savable(t, keys)
    decreases |keys|
  {
    if keys == [] then []
    else
      var init := keys[..|keys| - 1];
      var k := keys[|keys| - 1];
      assert Savable(t, init) && Savable(t, [k]) by {
        assert forall x :: x in init ==> x in keys;
      }
      Writes(t, outpath, init)
      + if Reported(t, k) then [(ReportPath(outpath, t.vals[k].rec), t.vals[k].rec)] else []
  }

  /** `save_techchecks(seqdict, outpath)` */
  method SaveTechchecks(t: Table, outpath: string) returns (writes: seq<(string, SeqRecord)>)
    requires Savable(t, t.keys)
    ensures writes == Writes(t, outpath, t.keys)
  {
    writes := [];
    var i := 0;
    while i < |t.keys|
      invariant 0 <= i <= |t.keys|
      invariant Savable(t, t.keys[..i])
      invariant writes == Writes(t, outpath, t.keys[..i])
    {
      var key := t.keys[i];
      assert t.keys[..i + 1][..i] == t.keys[..i] && t.keys[..i + 1][i] == key;
      assert key in t.keys;
      if key != "path" {
        var rec := t.vals[key].rec;
        if rec.frames.keys != [] {
          writes := writes + [(PathJoin(outpath, Stem(rec.path) + "_techcheck.json"), rec)];
        }
      }
      i := i + 1;
      assert Savable(t, t.keys[..i]) by {
        assert forall x :: x in t.keys[..i] ==> x in t.keys;
      }
    }
    assert t.keys[..i] == t.keys;
  }

  /** A report is written for exactly the keys other than 'path' whose
      record has frames: each such record, under its report path, and
      nothing else. */
  lemma {:induction false} WritesMembers(t: Table, outpath: string, keys: seq<string>)
    requires Savable(t, keys)
    ensures forall k :: k in keys && k != "path" && t.vals[k].rec.frames.keys != [] ==>
      (ReportPath(outpath, t.vals[k].rec), t.vals[k].rec) in Writes(t, outpath, keys)
    ensures forall w :: w in Writes(t, outpath, keys) ==>
      exists k :: k in keys && k != "path" && t.vals[k].rec.frames.keys != []
        && w == (ReportPath(outpath, t.vals[k].rec), t.vals[k].rec)
    decreases |keys|
  {
    if keys != [] {
      var init := keys[..|keys| - 1];
      var last := keys[|keys| - 1];
      assert forall x :: x in init ==> x in keys;
      WritesMembers(t, outpath, init);
      assert forall x :: x in keys ==> x in init || x == last by {
        assert keys == init + [last];
      }
    }
  }
}

/** The shapes of the nested dictionaries `seq_stats_checker` builds
    (oiio_techcheck.py) and the reductions decorate. */
module Records {
  import opened Wrappers
  import opened PyStr
  import opened PyPath
  import opened PyDict
  import opened Stats

  /** One member file of a detected sequence as pyseq reports it:
      `file.path`, `file.frame` and `file.pad`. */
  datatype Item = Item(path: string, frame: int, pad: int)

  /** One sequence as pyseq reports it: `seq.name`, `str(seq)` and its
      member files in order. */
  datatype FileSequence = FileSequence(name: string, display: string, items: seq<Item>)

  /** A frame entry: `{}` when the file was missing, `{'stats': ...}`
      otherwise. */
  datatype FrameEntry = FrameEntry(stats: Option<StatsDict>)

  /** The per-sequence dict: 'frames' and 'path', then the keys
      'maximum', 'minimum', 'nans' and 'infs' that the reductions add. */
  datatype SeqRecord = SeqRecord(
    frames: Dict<FrameEntry>,
    path: string,
    maximum: Option<seq<string>>,
    minimum: Option<seq<string>>,
    nans: Option<seq<string>>,
    infs: Option<seq<string>>)

  /** A value of the top-level dict: the scanned directory under 'path',
      a sequence record under each sequence stem. */
  datatype Value = PathValue(dir: string) | SeqValue(rec: SeqRecord)

  type Table = Dict<Value>

  /** `os.path.basename(p).split('.')[0]`: the last path component up to
      its first '.'. */
  function Stem(p: string): string
  {
    var b := Basename(p);
    b[..FindOr(b, '.')]
  }

  /** The stem is the first piece of the base name split at '.', which
      holds neither a '/' nor a '.'; it ends the base name or is followed by
      a '.'. */
  lemma StemShape(p: string)
    ensures Stem(p) == Split(Basename(p), '.')[0]
    ensures '/' !in Stem(p) && '.' !in Stem(p)
    ensures |Stem(p)| <= |Basename(p)| && Basename(p)[..|Stem(p)|] == Stem(p)
    ensures |Stem(p)| < |Basename(p)| ==> Basename(p)[|Stem(p)|] == '.'
  {
    var b := Basename(p);
    BasenameShape(p);
    FindOrFirst(b, '.');
    SplitFirstIsFind(b, '.');
    assert forall x :: x in b[..FindOr(b, '.')] ==> x in b;
  }

  /** Python's truth value of a top-level value. A string is false when
      empty; a sequence record always holds 'frames' and 'path', so it is
      never false. */
  predicate Truthy(v: Value)
  {
    match v
    case PathValue(dir) => dir != []
    case SeqValue(_) => true
  }

  /** The shape of a finished table: 'path' holds the directory and every
      other key a sequence record whose frames dict is consistent. */
  ghost predicate Shaped(t: Table)
  {
    t.Valid()
    && forall k :: k in t.vals ==>
         (t.vals[k].PathValue? <==> k == "path")
         && (t.vals[k].SeqValue? ==> t.vals[k].rec.frames.Valid())
  }

  /** Storing a record under a stem other than 'path' keeps the shape. */
  lemma ShapedSet(t: Table, k: string, rec: SeqRecord)
    requires Shaped(t) && k != "path" && rec.frames.Valid()
    ensures Shaped(Set(t, k, SeqValue(rec)))
  {
    var r := Set(t, k, SeqValue(rec));
    SetValid(t, k, SeqValue(rec));
    forall x | x in r.vals
      ensures (r.vals[x].PathValue? <==> x == "path")
      ensures r.vals[x].SeqValue? ==> r.vals[x].rec.frames.Valid()
    {
      if x != k {
        assert r.vals[x] == t.vals[x];
      }
    }
  }
}

/** `seq_stats_checker` (oiio_techcheck.py): scan a directory, give every
    detected sequence an entry keyed by its stem, give every image file of
    it a frame entry keyed by its zero-padded frame number, attach the
    parsed tool output when the file exists, then drop falsy top-level
    values. */
module Scan {
  import opened Wrappers
  import opened PyStr
  import opened PyPath
  import opened PyDict
  import opened Stats
  import opened Records

  /** What the scan asks of the outside world: `os.path.isdir`,
      `os.path.isfile`, `pyseq.get_sequences`, and the standard output of
      `oiiotool --hash --stats` run on a path. */
  datatype Env = Env(
    isDir: string -> bool,
    isFile: string -> bool,
    getSequences: string -> seq<FileSequence>,
    oiiotool: string -> string)

  /** `Path(path).suffix.lower() in FILETYPES`, with the list
      `FILETYPES` written out. */
  predicate IsImage(path: string)
  {
    Member(LowerStr(Suffix(PathName(path))), [".exr", ".tif", ".hdr", ".jpg", ".png"])
  }

  /** pathlib ignores a trailing '/' or '/.', so the image test does too. */
  lemma IsImageTrailing(p: string)
    ensures IsImage(p + "/") == IsImage(p)
    ensures IsImage(p + "/.") == IsImage(p)
  {
    PathNameTrailing(p);
  }

  /** `str(file.frame).zfill(file.pad)` */
  function FrameKey(item: Item): string
  {
    ZFill(IntToStr(item.frame), item.pad)
  }

  /** `os.path.basename(seq.name).split('.')[0]` */
  function SeqKey(s: FileSequence): string
  {
    Stem(s.name)
  }

  /** The member files the inner loop keeps, in order. */
  function Images(image: string -> bool, items: seq<Item>): seq<Item>
    decreases |items|
  {
    if items == [] then []
    else
      var it := items[|items| - 1];
      Images(image, items[..|items| - 1]) + if image(it.path) then [it] else []
  }

  /** The tool output of the file, if the file exists, can be parsed
      (otherwise Python raises an IndexError). */
  predicate Readable(env: Env, item: Item)
  {
    env.isFile(item.path) ==> Parsable(env.oiiotool(item.path))
  }

  /** What the inner loop demands of a sequence's member files: the tool
      output of every existing image file can be parsed. */
  predicate ImagesReadable(env: Env, image: string -> bool, items: seq<Item>)
  {
    forall it :: it in items && image(it.path) ==> Readable(env, it)
  }

  /** What the scan demands of one sequence: its stem is not 'path' (that
      entry would replace the directory string, and the next `os.path.join`
      would raise a TypeError), and every existing image file's tool output
      can be parsed. */
  predicate SeqReadable(env: Env, image: string -> bool, s: FileSequence)
  {
    SeqKey(s) != "path" && ImagesReadable(env, image, s.items)
  }

  predicate SequencesReadable(env: Env, image: string -> bool, seqs: seq<FileSequence>)
  {
    forall i :: 0 <= i < |seqs| ==> SeqReadable(env, image, seqs[i])
  }

  predicate ScanReadable(env: Env, dirpath: string)
  {
    env.isDir(dirpath) ==> SequencesReadable(env, IsImage, env.getSequences(dirpath))
  }

  /** The frame entry of an image file: `{}`, plus 'stats' when the file
      exists. */
  function EntryFor(env: Env, item: Item): FrameEntry
    requires Readable(env, item)
  {
    FrameEntry(if env.isFile(item.path) then Some(GetOiioStats(env.oiiotool(item.path))) else None)
  }

  /** The pairs the inner loop assigns: each image file's frame key and
      entry, in the order of the member files. */
  function FrameEntries(env: Env, image: string -> bool, items: seq<Item>): seq<(string, FrameEntry)>
    requires ImagesReadable(env, image, items)
    decreases |items|
  {
    if items == [] then []
    else
      var it := items[|items| - 1];
      ImagesReadablePrefix(env, image, items, |items| - 1);
      FrameEntries(env, image, items[..|items| - 1]) + if image(it.path) then [(FrameKey(it), EntryFor(env, it))] else []
  }

  /** The frames dict of a sequence with member files `items`. */
  function CollectFrames(env: Env, image: string -> bool, items: seq<Item>): Dict<FrameEntry>
    requires ImagesReadable(env, image, items)
  {
    SetAll(Empty(), FrameEntries(env, image, items))
  }

  /** The record the outer loop stores for one sequence. */
  function RecordFor(env: Env, image: string -> bool, dirpath: string, s: FileSequence): SeqRecord
    requires ImagesReadable(env, image, s.items)
  {
    SeqRecord(CollectFrames(env, image, s.items), PathJoin(dirpath, s.display), None, None, None, None)
  }

  /** The pairs the outer loop assigns: each sequence's stem and record. */
  function SeqEntries(env: Env, image: string -> bool, dirpath: string, seqs: seq<FileSequence>): seq<(string, Value)>
    requires SequencesReadable(env, image, seqs)
  {
    Map(s requires SeqReadable(env, image, s) => (SeqKey(s), SeqValue(RecordFor(env, image, dirpath, s))), seqs)
  }

  /** `seqdict = {'path': dirpath}` */
  function Base(dirpath: string): Table
  {
    Set(Empty(), "path", PathValue(dirpath))
  }

  /** The top-level dict after the outer loop has visited `seqs`. */
  function AddSequences(env: Env, image: string -> bool, dirpath: string, seqs: seq<FileSequence>): Table
    requires SequencesReadable(env, image, seqs)
  {
    SetAll(Base(dirpath), SeqEntries(env, image, dirpath, seqs))
  }

  /** The top-level dict before the clean-up: empty when the path is not a
      directory. */
  function ScanTable(env: Env, dirpath: string): (t: Table)
    requires ScanReadable(env, dirpath)
    ensures t.Valid()
  {
    if env.isDir(dirpath) then
      AddSequencesShaped(env, IsImage, dirpath, env.getSequences(dirpath));
      AddSequences(env, IsImage, dirpath, env.getSequences(dirpath))
    else
      EmptyValid<Value>();
      Empty()
  }

  /** `seq_stats_checker(dirpath)` */
  method SeqStatsChecker(env: Env, dirpath: string) returns (table: Table)
    requires ScanReadable(env, dirpath)
    ensures table == Filter(ScanTable(env, dirpath), Truthy)
    ensures !env.isDir(dirpath) ==> table.keys == []
    ensures Shaped(table)
  {
    table := Empty();
    if env.isDir(dirpath) {
      table := Set(table, "path", PathValue(dirpath));
      var seqs := env.getSequences(dirpath);
      assert seqs[..0] == [];
      var i := 0;
      while i < |seqs|
        invariant 0 <= i <= |seqs|
        invariant table == TableUpTo(env, IsImage, dirpath, seqs, i)
      {
        var s := seqs[i];
        TableUpToStep(env, IsImage, dirpath, seqs, i);
        var frames := ScanFrames(env, s);
        table := Set(table, SeqKey(s), SeqValue(SeqRecord(frames, PathJoin(dirpath, s.display), None, None, None, None)));
        i := i + 1;
      }
      assert seqs[..i] == seqs;
    }
    ScanIsShaped(env, dirpath);
    table := RemoveEmptyItems(table);
  }

  /** The inner loop of `seq_stats_checker`: one frame entry per image
      file of the sequence. */
  method ScanFrames(env: Env, s: FileSequence) returns (frames: Dict<FrameEntry>)
    requires ImagesReadable(env, IsImage, s.items)
    ensures frames == CollectFrames(env, IsImage, s.items)
  {
    frames := Empty();
    assert s.items[..0] == [];
    var j := 0;
    while j < |s.items|
      invariant 0 <= j <= |s.items|
      invariant frames == FramesUpTo(env, IsImage, s.items, j)
    {
      var item := s.items[j];
      FramesUpToStep(env, IsImage, s.items, j);
      if IsImage(item.path) {
        var entry := FrameEntry(None);
        if env.isFile(item.path) {
          entry := FrameEntry(Some(GetOiioStats(env.oiiotool(item.path))));
        }
        frames := Set(frames, FrameKey(item), entry);
      }
      j := j + 1;
    }
    assert s.items[..j] == s.items;
  }

  /** The clean-up loop: `for item in list(seqdict): if not seqdict[item]:
      seqdict.pop(item)`. */
  method RemoveEmptyItems(table: Table) returns (r: Table)
    requires table.Valid()
    ensures r == Filter(table, Truthy)
  {
    r := table;
    var items := table.keys;
    PrunedStart(table, Truthy);
    var i := 0;
    while i < |items|
      invariant 0 <= i <= |items|
      invariant r == Pruned(table, Truthy, i)
    {
      PrunedStep(table, Truthy, i);
      if !Truthy(r.vals[items[i]]) {
        r := Pop(r, items[i]);
      }
      i := i + 1;
    }
    PrunedEnd(table, Truthy);
  }

  // ---------------------------------------------------------------------
  // Helpers for the loops
  // ---------------------------------------------------------------------

  lemma ImagesReadablePrefix(env: Env, image: string -> bool, items: seq<Item>, n: nat)
    requires ImagesReadable(env, image, items) && n <= |items|
    ensures ImagesReadable(env, image, items[..n])
  {
    assert forall x :: x in items[..n] ==> x in items;
  }

  lemma ReadablePrefix(env: Env, image: string -> bool, seqs: seq<FileSequence>, n: nat)
    requires SequencesReadable(env, image, seqs) && n <= |seqs|
    ensures SequencesReadable(env, image, seqs[..n])
  {
    assert forall j :: 0 <= j < n ==> seqs[..n][j] == seqs[j];
  }

  /** The last member file: an image file adds or replaces its frame
      entry, any other file changes nothing. */
  lemma CollectFramesSnoc(env: Env, image: string -> bool, items: seq<Item>)
    requires ImagesReadable(env, image, items) && items != []
    ensures ImagesReadable(env, image, items[..|items| - 1])
    ensures image(items[|items| - 1].path) ==> Readable(env, items[|items| - 1])
    ensures CollectFrames(env, image, items) ==
      if image(items[|items| - 1].path)
      then Set(CollectFrames(env, image, items[..|items| - 1]), FrameKey(items[|items| - 1]), EntryFor(env, items[|items| - 1]))
      else CollectFrames(env, image, items[..|items| - 1])
  {
    var init := items[..|items| - 1];
    var it := items[|items| - 1];
    ImagesReadablePrefix(env, image, items, |items| - 1);
    assert it in items;
    if image(it.path) {
      SetAllSnoc(Empty(), FrameEntries(env, image, init), FrameKey(it), EntryFor(env, it));
    } else {
      assert FrameEntries(env, image, items) == FrameEntries(env, image, init) + [];
      assert FrameEntries(env, image, init) + [] == FrameEntries(env, image, init);
    }
  }

  /** The frames dict after the inner loop has visited the first `j`
      member files. */
  function FramesUpTo(env: Env, image: string -> bool, items: seq<Item>, j: nat): Dict<FrameEntry>
    requires ImagesReadable(env, image, items) && j <= |items|
  {
    ImagesReadablePrefix(env, image, items, j);
    CollectFrames(env, image, items[..j])
  }

  /** One step of the inner loop. */
  lemma FramesUpToStep(env: Env, image: string -> bool, items: seq<Item>, j: nat)
    requires ImagesReadable(env, image, items) && j < |items|
    ensures image(items[j].path) ==> Readable(env, items[j])
    ensures FramesUpTo(env, image, items, j + 1) ==
      if image(items[j].path) then Set(FramesUpTo(env, image, items, j), FrameKey(items[j]), EntryFor(env, items[j]))
      else FramesUpTo(env, image, items, j)
  {
    var pre := items[..j + 1];
    ImagesReadablePrefix(env, image, items, j + 1);
    assert pre[..j] == items[..j] && pre[j] == items[j];
    CollectFramesSnoc(env, image, pre);
  }

  /** The last sequence: its record goes under its stem. */
  lemma AddSequencesSnoc(env: Env, image: string -> bool, dirpath: string, seqs: seq<FileSequence>)
    requires SequencesReadable(env, image, seqs) && seqs != []
    ensures SequencesReadable(env, image, seqs[..|seqs| - 1]) && SeqReadable(env, image, seqs[|seqs| - 1])
    ensures AddSequences(env, image, dirpath, seqs) ==
      Set(AddSequences(env, image, dirpath, seqs[..|seqs| - 1]), SeqKey(seqs[|seqs| - 1]),
          SeqValue(RecordFor(env, image, dirpath, seqs[|seqs| - 1])))
  {
    var s := seqs[|seqs| - 1];
    ReadablePrefix(env, image, seqs, |seqs| - 1);
    SetAllSnoc(Base(dirpath), SeqEntries(env, image, dirpath, seqs[..|seqs| - 1]), SeqKey(s), SeqValue(RecordFor(env, image, dirpath, s)));
  }

  /** The top-level dict after the outer loop has visited the first `i`
      sequences. */
  function TableUpTo(env: Env, image: string -> bool, dirpath: string, seqs: seq<FileSequence>, i: nat): Table
    requires SequencesReadable(env, image, seqs) && i <= |seqs|
  {
    ReadablePrefix(env, image, seqs, i);
    AddSequences(env, image, dirpath, seqs[..i])
  }

  /** One step of the outer loop. */
  lemma TableUpToStep(env: Env, image: string -> bool, dirpath: string, seqs: seq<FileSequence>, i: nat)
    requires SequencesReadable(env, image, seqs) && i < |seqs|
    ensures SeqReadable(env, image, seqs[i])
    ensures TableUpTo(env, image, dirpath, seqs, i + 1) ==
      Set(TableUpTo(env, image, dirpath, seqs, i), SeqKey(seqs[i]), SeqValue(RecordFor(env, image, dirpath, seqs[i])))
  {
    var pre := seqs[..i + 1];
    ReadablePrefix(env, image, seqs, i + 1);
    assert pre[..i] == seqs[..i] && pre[i] == seqs[i];
    AddSequencesSnoc(env, image, dirpath, pre);
  }

  // ---------------------------------------------------------------------
  // What the scan promises
  // ---------------------------------------------------------------------

  /** The inner loop keeps exactly the image files. */
  lemma {:induction false} ImagesMembers(image: string -> bool, items: seq<Item>)
    ensures forall it :: it in Images(image, items) <==> it in items && image(it.path)
    decreases |items|
  {
    if items != [] {
      var init := items[..|items| - 1];
      ImagesMembers(image, init);
      assert items == init + [items[|items| - 1]];
    }
  }

  /** `str(frame).zfill(pad)` for a frame number that is not negative: as
      long as the longer of the digits and the pad, the digits of the frame
      at the end with only '0's before them, and it reads back as the frame
      number. */
  lemma FrameKeyOfNonNegative(item: Item)
    requires item.frame >= 0
    ensures |FrameKey(item)| == if |NatToStr(item.frame)| >= item.pad then |NatToStr(item.frame)| else item.pad
    ensures FrameKey(item) == Zeros(|FrameKey(item)| - |NatToStr(item.frame)|) + NatToStr(item.frame)
    ensures IsDigits(FrameKey(item)) && PyInt(FrameKey(item)) == item.frame
  {
    var digits := NatToStr(item.frame);
    var key := FrameKey(item);
    NatToStrRoundTrip(item.frame);
    ZerosDoNotCount(|key| - |digits|, digits);
    if |digits| >= item.pad {
      assert Zeros(0) + digits == digits;
    }
  }

  /** For a negative frame the sign stays in front and the zeros go between
      the sign and the digits. */
  lemma FrameKeyOfNegative(item: Item)
    requires item.frame < 0
    ensures |FrameKey(item)| == if |IntToStr(item.frame)| >= item.pad then |IntToStr(item.frame)| else item.pad
    ensures FrameKey(item) == ['-'] + Zeros(|FrameKey(item)| - |IntToStr(item.frame)|) + NatToStr(-item.frame)
  {
    var s := IntToStr(item.frame);
    assert s == ['-'] + NatToStr(-item.frame);
    if |s| >= item.pad {
      assert ['-'] + Zeros(0) + NatToStr(-item.frame) == s;
    }
  }

  /** Distinct frame numbers that are not negative get distinct keys,
      whatever their pads. */
  lemma FrameKeysDistinct(a: Item, b: Item)
    requires a.frame >= 0 && b.frame >= 0 && a.frame != b.frame
    ensures FrameKey(a) != FrameKey(b)
  {
    FrameKeyOfNonNegative(a);
    FrameKeyOfNonNegative(b);
  }

  /** `[FrameKey(f) for f in imgs]` */
  function FrameKeys(imgs: seq<Item>): seq<string>
  {
    Map(FrameKey, imgs)
  }

  /** The frames dict lists each of its keys once. */
  lemma CollectFramesValid(env: Env, image: string -> bool, items: seq<Item>)
    requires ImagesReadable(env, image, items)
    ensures CollectFrames(env, image, items).Valid()
  {
    EmptyValid<FrameEntry>();
    SetAllValid(Empty(), FrameEntries(env, image, items));
  }

  /** The keys the inner loop assigns are the frame keys of the image
      files, in order. */
  lemma {:induction false} FrameEntriesKeys(env: Env, image: string -> bool, items: seq<Item>)
    requires ImagesReadable(env, image, items)
    ensures KeysOf(FrameEntries(env, image, items)) == FrameKeys(Images(image, items))
    decreases |items|
  {
    if items != [] {
      var init := items[..|items| - 1];
      var it := items[|items| - 1];
      ImagesReadablePrefix(env, image, items, |items| - 1);
      FrameEntriesKeys(env, image, init);
      var a := FrameEntries(env, image, init);
      var imgs := Images(image, init);
      if image(it.path) {
        var p := (FrameKey(it), EntryFor(env, it));
        assert (a + [p])[..|a|] == a;
        assert (imgs + [it])[..|imgs|] == imgs;
      } else {
        assert a + [] == a;
        assert imgs + [] == imgs;
      }
    }
  }

  /** The frames dict is keyed by the frame keys of the image files, in
      first-seen order: every image file has an entry, and every entry
      belongs to one. */
  lemma CollectFramesKeys(env: Env, image: string -> bool, items: seq<Item>)
    requires ImagesReadable(env, image, items)
    ensures CollectFrames(env, image, items).keys == Dedup(FrameKeys(Images(image, items)))
    ensures forall k :: k in CollectFrames(env, image, items).vals <==> k in FrameKeys(Images(image, items))
  {
    var kvs := FrameEntries(env, image, items);
    FrameEntriesKeys(env, image, items);
    SetAllKeys(Empty(), kvs);
    SetAllMembers(Empty(), kvs);
    assert [] + Dedup(FrameKeys(Images(image, items))) == Dedup(FrameKeys(Images(image, items)));
  }

  /** No later image file has the frame key of the image file at index
      `i`. */
  predicate LastWithKey(image: string -> bool, items: seq<Item>, i: nat)
    requires i < |items|
  {
    forall j :: i < j < |items| && image(items[j].path) ==> FrameKey(items[j]) != FrameKey(items[i])
  }

  /** The entry under a frame key is the one of the last image file with
      that key: it holds stats exactly when that file exists, and they are
      the parse of its tool output. */
  lemma {:induction false} CollectFramesLastWins(env: Env, image: string -> bool, items: seq<Item>, i: nat)
    requires ImagesReadable(env, image, items)
    requires i < |items| && image(items[i].path) && LastWithKey(image, items, i)
    ensures Readable(env, items[i])
    ensures FrameKey(items[i]) in CollectFrames(env, image, items).vals
    ensures CollectFrames(env, image, items).vals[FrameKey(items[i])] == EntryFor(env, items[i])
    ensures var e := CollectFrames(env, image, items).vals[FrameKey(items[i])];
      (e.stats.Some? <==> env.isFile(items[i].path))
      && (e.stats.Some? ==> e.stats.value == GetOiioStats(env.oiiotool(items[i].path)))
    decreases |items|
  {
    assert items[i] in items;
    var n := |items| - 1;
    var init := items[..n];
    var last := items[n];
    var k := FrameKey(items[i]);
    CollectFramesSnoc(env, image, items);
    var before := CollectFrames(env, image, init);
    if i < n {
      assert init[i] == items[i];
      assert LastWithKey(image, init, i) by {
        forall j | i < j < |init| && image(init[j].path) ensures FrameKey(init[j]) != k {
          assert init[j] == items[j];
        }
      }
      CollectFramesLastWins(env, image, init, i);
      if image(last.path) {
        assert FrameKey(last) != k;
        SetLookup(before, FrameKey(last), EntryFor(env, last));
      }
    } else {
      SetLookup(before, k, EntryFor(env, last));
    }
  }

  /** `[SeqKey(s) for s in seqs]` */
  function SeqKeys(seqs: seq<FileSequence>): seq<string>
  {
    Map(SeqKey, seqs)
  }

  /** No later sequence has the stem of the one at index `i`. */
  predicate LastWithStem(seqs: seq<FileSequence>, i: nat)
    requires i < |seqs|
  {
    forall j :: i < j < |seqs| ==> SeqKey(seqs[j]) != SeqKey(seqs[i])
  }

  /** The pair the outer loop assigns for the sequence at index `i`. */
  lemma SeqEntriesAt(env: Env, image: string -> bool, dirpath: string, seqs: seq<FileSequence>)
    requires SequencesReadable(env, image, seqs)
    ensures |SeqEntries(env, image, dirpath, seqs)| == |seqs|
    ensures forall i :: 0 <= i < |seqs| ==>
      SeqEntries(env, image, dirpath, seqs)[i] == (SeqKey(seqs[i]), SeqValue(RecordFor(env, image, dirpath, seqs[i])))
  {
    MapAt(s requires SeqReadable(env, image, s) => (SeqKey(s), SeqValue(RecordFor(env, image, dirpath, s))), seqs);
  }

  /** The keys the outer loop assigns are the sequence stems, in order;
      none of them is 'path'. */
  lemma SeqEntriesKeys(env: Env, image: string -> bool, dirpath: string, seqs: seq<FileSequence>)
    requires SequencesReadable(env, image, seqs)
    ensures KeysOf(SeqEntries(env, image, dirpath, seqs)) == SeqKeys(seqs)
    ensures "path" !in SeqKeys(seqs)
  {
    SeqEntriesAt(env, image, dirpath, seqs);
    MapAt(SeqKey, seqs);
  }

  /** The table of a directory, before the clean-up, lists 'path' and then
      the sequence stems in first-seen order; 'path' keeps the directory. */
  lemma AddSequencesKeys(env: Env, image: string -> bool, dirpath: string, seqs: seq<FileSequence>)
    requires SequencesReadable(env, image, seqs)
    ensures AddSequences(env, image, dirpath, seqs).keys == ["path"] + Dedup(SeqKeys(seqs))
    ensures forall k :: k in AddSequences(env, image, dirpath, seqs).vals <==> k == "path" || k in SeqKeys(seqs)
    ensures "path" in AddSequences(env, image, dirpath, seqs).vals
    ensures AddSequences(env, image, dirpath, seqs).vals["path"] == PathValue(dirpath)
  {
    SeqEntriesKeys(env, image, dirpath, seqs);
    SetAllOnto(Base(dirpath), SeqEntries(env, image, dirpath, seqs), "path", PathValue(dirpath));
  }

  /** The record under a stem is the one built from the last sequence with
      that stem. */
  lemma AddSequencesLastWins(env: Env, image: string -> bool, dirpath: string, seqs: seq<FileSequence>, i: nat)
    requires SequencesReadable(env, image, seqs)
    requires i < |seqs| && LastWithStem(seqs, i)
    ensures ImagesReadable(env, image, seqs[i].items)
    ensures SeqKey(seqs[i]) in AddSequences(env, image, dirpath, seqs).vals
    ensures AddSequences(env, image, dirpath, seqs).vals[SeqKey(seqs[i])] == SeqValue(RecordFor(env, image, dirpath, seqs[i]))
  {
    var kvs := SeqEntries(env, image, dirpath, seqs);
    SeqEntriesAt(env, image, dirpath, seqs);
    assert LastKey(kvs, i);
    SetAllLast(Base(dirpath), kvs, i);
  }

  /** The table of a directory keeps the shape of a finished table. */
  lemma AddSequencesShaped(env: Env, image: string -> bool, dirpath: string, seqs: seq<FileSequence>)
    requires SequencesReadable(env, image, seqs)
    ensures Shaped(AddSequences(env, image, dirpath, seqs))
  {
    var kvs := SeqEntries(env, image, dirpath, seqs);
    var t := AddSequences(env, image, dirpath, seqs);
    EmptyValid<Value>();
    SetValid(Empty(), "path", PathValue(dirpath));
    SetAllValid(Base(dirpath), kvs);
    SeqEntriesKeys(env, image, dirpath, seqs);
    SeqEntriesAt(env, image, dirpath, seqs);
    forall k | k in t.vals
      ensures (t.vals[k].PathValue? <==> k == "path")
      ensures t.vals[k].SeqValue? ==> t.vals[k].rec.frames.Valid()
    {
      SetAllValues(Base(dirpath), kvs, k);
      if k in KeysOf(kvs) {
        var j :| 0 <= j < |kvs| && kvs[j] == (k, t.vals[k]);
        CollectFramesValid(env, image, seqs[j].items);
      }
    }
  }

  lemma ScanIsShaped(env: Env, dirpath: string)
    requires ScanReadable(env, dirpath)
    ensures Shaped(ScanTable(env, dirpath))
    ensures Shaped(Filter(ScanTable(env, dirpath), Truthy))
  {
    if env.isDir(dirpath) {
      AddSequencesShaped(env, IsImage, dirpath, env.getSequences(dirpath));
    }
    FilterValid(ScanTable(env, dirpath), Truthy);
  }

  /** The clean-up drops only falsy values: of the finished table of a
      directory it can drop only 'path', and only when the directory string
      is empty; a sequence entry is never dropped. */
  lemma ScanResultKeys(env: Env, dirpath: string)
    requires ScanReadable(env, dirpath) && env.isDir(dirpath)
    ensures Filter(ScanTable(env, dirpath), Truthy).keys
      == (if dirpath == [] then [] else ["path"]) + Dedup(SeqKeys(env.getSequences(dirpath)))
  {
    var seqs := env.getSequences(dirpath);
    var t := AddSequences(env, IsImage, dirpath, seqs);
    AddSequencesKeys(env, IsImage, dirpath, seqs);
    AddSequencesShaped(env, IsImage, dirpath, seqs);
    var rest := Dedup(SeqKeys(seqs));
    assert "path" !in rest by {
      MapAt(SeqKey, seqs);
      forall i | 0 <= i < |seqs| ensures SeqKeys(seqs)[i] != "path" {
        assert SeqReadable(env, IsImage, seqs[i]);
      }
    }
    KeysWhereAppend(["path"], rest, t.vals, Truthy);
    forall k | k in rest ensures k in t.vals && Truthy(t.vals[k]) {
      assert k in t.keys;
    }
    KeysWhereAll(rest, t.vals, Truthy);
    assert ["path"][..0] == [];
    assert KeysWhere(["path"], t.vals, Truthy) == (if Truthy(t.vals["path"]) then ["path"] else []);
  }
}

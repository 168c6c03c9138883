/** The reductions over one sequence record (oiio_techcheck.py):
    `find_min_max`, `find_nan_frames` and `find_inf_frames`. Each takes the
    record, fills in its keys and returns it; the caller stores the result
    back, so they are modelled as producing the new record. */
module Reduce {
  import opened Wrappers
  import opened PyStr
  import opened PyDict
  import opened Stats
  import opened Records

  /** The frame entry has stats, and the stats hold `field`. */
  predicate HasField(e: FrameEntry, field: Field)
  {
    e.stats.Some? && field in e.stats.value
  }

  /** `e['stats'][field]` */
  function Tokens(e: FrameEntry, field: Field): seq<string>
    requires HasField(e, field)
  {
    e.stats.value[field]
  }

  /** The frame entry under `k` can give channel `c` of `field`: it exists,
      it has stats (else a KeyError), and the field has a token at `c`
      (else an IndexError). */
  predicate HasChannel(frames: Dict<FrameEntry>, k: string, field: Field, c: nat)
  {
    k in frames.vals && HasField(frames.vals[k], field) && c < |Tokens(frames.vals[k], field)|
  }

  /** `frames[k]['stats'][field][c]` */
  function Channel(frames: Dict<FrameEntry>, k: string, field: Field, c: nat): string
    requires HasChannel(frames, k, field, c)
  {
    Tokens(frames.vals[k], field)[c]
  }

  /** What `find_min_max` demands of a non-empty frames dict: three 'max'
      and three 'min' tokens in every frame's stats. */
  predicate ChannelsReady(frames: Dict<FrameEntry>)
  {
    forall k :: k in frames.keys ==> HasChannel(frames, k, Max, 2) && HasChannel(frames, k, Min, 2)
  }

  /** `[frames[x]['stats'][field][c] for x in frames]` */
  function Column(frames: Dict<FrameEntry>, field: Field, c: nat): (col: seq<string>)
    requires forall k :: k in frames.keys ==> HasChannel(frames, k, field, c)
    ensures |col| == |frames.keys|
  {
    MapAt(k requires HasChannel(frames, k, field, c) => Channel(frames, k, field, c), frames.keys);
    Map(k requires HasChannel(frames, k, field, c) => Channel(frames, k, field, c), frames.keys)
  }

  /** The column holds channel `c` of every frame, and nothing else. */
  lemma ColumnMembers(frames: Dict<FrameEntry>, field: Field, c: nat)
    requires forall k :: k in frames.keys ==> HasChannel(frames, k, field, c)
    ensures forall k :: k in frames.keys ==> Channel(frames, k, field, c) in Column(frames, field, c)
    ensures forall x :: x in Column(frames, field, c) ==>
      exists k :: k in frames.keys && Channel(frames, k, field, c) == x
  {
    var col := Column(frames, field, c);
    MapAt(k requires HasChannel(frames, k, field, c) => Channel(frames, k, field, c), frames.keys);
    forall k | k in frames.keys ensures Channel(frames, k, field, c) in col {
      var i :| 0 <= i < |frames.keys| && frames.keys[i] == k;
      assert col[i] == Channel(frames, k, field, c);
    }
    forall x | x in col ensures exists k :: k in frames.keys && Channel(frames, k, field, c) == x {
      var i :| 0 <= i < |col| && col[i] == x;
      assert frames.keys[i] in frames.keys;
    }
  }

  /** `(max(maxred), max(maxgreen), max(maxblue))` */
  function Maxima(frames: Dict<FrameEntry>): seq<string>
    requires frames.keys != [] && ChannelsReady(frames)
  {
    assert forall k :: k in frames.keys ==> HasChannel(frames, k, Max, 0) && HasChannel(frames, k, Max, 1);
    [MaxStr(Column(frames, Max, 0)), MaxStr(Column(frames, Max, 1)), MaxStr(Column(frames, Max, 2))]
  }

  /** `(min(minred), min(mingreen), min(minblue))` */
  function Minima(frames: Dict<FrameEntry>): seq<string>
    requires frames.keys != [] && ChannelsReady(frames)
  {
    assert forall k :: k in frames.keys ==> HasChannel(frames, k, Min, 0) && HasChannel(frames, k, Min, 1);
    [MinStr(Column(frames, Min, 0)), MinStr(Column(frames, Min, 1)), MinStr(Column(frames, Min, 2))]
  }

  /** Channel `c` of the maxima is the 'max' token of some frame, and no
      frame's 'max' token exceeds it in string order. */
  lemma MaximaChannel(frames: Dict<FrameEntry>, c: nat)
    requires frames.keys != [] && ChannelsReady(frames) && c < 3
    ensures |Maxima(frames)| == 3
    ensures exists k :: k in frames.keys && Channel(frames, k, Max, c) == Maxima(frames)[c]
    ensures forall k :: k in frames.keys ==> LexLe(Channel(frames, k, Max, c), Maxima(frames)[c])
  {
    assert Maxima(frames)[c] == MaxStr(Column(frames, Max, c));
    ColumnMembers(frames, Max, c);
  }

  /** Channel `c` of the minima is the 'min' token of some frame, and it
      exceeds no frame's 'min' token in string order. */
  lemma MinimaChannel(frames: Dict<FrameEntry>, c: nat)
    requires frames.keys != [] && ChannelsReady(frames) && c < 3
    ensures |Minima(frames)| == 3
    ensures exists k :: k in frames.keys && Channel(frames, k, Min, c) == Minima(frames)[c]
    ensures forall k :: k in frames.keys ==> LexLe(Minima(frames)[c], Channel(frames, k, Min, c))
  {
    assert Minima(frames)[c] == MinStr(Column(frames, Min, c));
    ColumnMembers(frames, Min, c);
  }

  /** `find_min_max(seqdetect)`: with frames, 'maximum' and 'minimum' are
      set to three channel values each; without frames nothing changes. No
      other key is touched. */
  function FindMinMax(rec: SeqRecord): (r: SeqRecord)
    requires rec.frames.keys != [] ==> ChannelsReady(rec.frames)
    ensures rec.frames.keys == [] ==> r == rec
    ensures r.frames == rec.frames && r.path == rec.path && r.nans == rec.nans && r.infs == rec.infs
    ensures rec.frames.keys != [] ==>
      r.maximum.Some? && |r.maximum.value| == 3 && r.minimum.Some? && |r.minimum.value| == 3
  {
    if rec.frames.keys == [] then rec
    else rec.(maximum := Some(Maxima(rec.frames)), minimum := Some(Minima(rec.frames)))
  }

  /** With frames, channel `c` of 'maximum' is the greatest 'max' token of
      that channel over all frames, and channel `c` of 'minimum' the least
      'min' token, both in string order. */
  lemma FindMinMaxChannel(rec: SeqRecord, c: nat)
    requires rec.frames.keys != [] && ChannelsReady(rec.frames) && c < 3
    ensures var r := FindMinMax(rec);
      (exists k :: k in rec.frames.keys && Channel(rec.frames, k, Max, c) == r.maximum.value[c])
      && (forall k :: k in rec.frames.keys ==> LexLe(Channel(rec.frames, k, Max, c), r.maximum.value[c]))
      && (exists k :: k in rec.frames.keys && Channel(rec.frames, k, Min, c) == r.minimum.value[c])
      && (forall k :: k in rec.frames.keys ==> LexLe(r.minimum.value[c], Channel(rec.frames, k, Min, c)))
  {
    MaximaChannel(rec.frames, c);
    MinimaChannel(rec.frames, c);
  }

  /** The channel maximum is the only token with both properties: any token
      of the channel that no other token of it exceeds is that maximum. */
  lemma MaximumUnique(rec: SeqRecord, c: nat, m: string)
    requires rec.frames.keys != [] && ChannelsReady(rec.frames) && c < 3
    requires exists k :: k in rec.frames.keys && Channel(rec.frames, k, Max, c) == m
    requires forall k :: k in rec.frames.keys ==> LexLe(Channel(rec.frames, k, Max, c), m)
    ensures FindMinMax(rec).maximum.value[c] == m
  {
    MaximaChannel(rec.frames, c);
    var top := Maxima(rec.frames)[c];
    var k0 :| k0 in rec.frames.keys && Channel(rec.frames, k0, Max, c) == top;
    var k1 :| k1 in rec.frames.keys && Channel(rec.frames, k1, Max, c) == m;
    LexMaxUnique([top, m], top, m);
  }

  /** Likewise the channel minimum: any token of the channel that exceeds
      no other token of it is that minimum. */
  lemma MinimumUnique(rec: SeqRecord, c: nat, m: string)
    requires rec.frames.keys != [] && ChannelsReady(rec.frames) && c < 3
    requires exists k :: k in rec.frames.keys && Channel(rec.frames, k, Min, c) == m
    requires forall k :: k in rec.frames.keys ==> LexLe(m, Channel(rec.frames, k, Min, c))
    ensures FindMinMax(rec).minimum.value[c] == m
  {
    MinimaChannel(rec.frames, c);
    var bottom := Minima(rec.frames)[c];
    var k0 :| k0 in rec.frames.keys && Channel(rec.frames, k0, Min, c) == bottom;
    var k1 :| k1 in rec.frames.keys && Channel(rec.frames, k1, Min, c) == m;
    LexMinUnique([bottom, m], bottom, m);
  }

  // ---------------------------------------------------------------------
  // find_nan_frames and find_inf_frames
  // ---------------------------------------------------------------------

  /** The frame entry can go through `int(max(e['stats'][field]))`: it has
      stats (else a KeyError), the token list is not empty (else `max`
      raises), and its greatest token is a digit string (else `int`
      raises). */
  predicate Countable(e: FrameEntry, field: Field)
  {
    HasField(e, field) && |Tokens(e, field)| > 0
    && |MaxStr(Tokens(e, field))| > 0 && IsDigits(MaxStr(Tokens(e, field)))
  }

  /** `int(max(e['stats'][field])) > 0` */
  predicate Flagged(e: FrameEntry, field: Field)
    requires Countable(e, field)
  {
    PyInt(MaxStr(Tokens(e, field))) > 0
  }

  /** The same test, total over frame entries. */
  predicate FlaggedEntry(e: FrameEntry, field: Field)
  {
    Countable(e, field) && Flagged(e, field)
  }

  /** What `find_nan_frames` (field 'nan') and `find_inf_frames` (field
      'inf') demand of a non-empty frames dict. */
  predicate CountsReady(frames: Dict<FrameEntry>, field: Field)
  {
    forall k :: k in frames.keys ==> k in frames.vals && Countable(frames.vals[k], field)
  }

  /** The frame keys among `keys` whose entries are flagged, in order. */
  function FlaggedAmong(frames: Dict<FrameEntry>, field: Field, keys: seq<string>): seq<string>
    requires forall k :: k in keys ==> k in frames.vals && Countable(frames.vals[k], field)
    decreases |keys|
  {
    if keys == [] then []
    else
      var init := keys[..|keys| - 1];
      var k := keys[|keys| - 1];
      assert forall x :: x in init ==> x in keys;
      FlaggedAmong(frames, field, init) + if Flagged(frames.vals[k], field) then [k] else []
  }

  /** The flagged list after the loop has visited the first `i` frame
      keys. */
  function FlaggedUpTo(frames: Dict<FrameEntry>, field: Field, i: nat): seq<string>
    requires CountsReady(frames, field) && i <= |frames.keys|
  {
    assert forall x :: x in frames.keys[..i] ==> x in frames.keys;
    FlaggedAmong(frames, field, frames.keys[..i])
  }

  /** One step of the loop. */
  lemma FlaggedUpToStep(frames: Dict<FrameEntry>, field: Field, i: nat)
    requires CountsReady(frames, field) && i < |frames.keys|
    ensures frames.keys[i] in frames.vals && Countable(frames.vals[frames.keys[i]], field)
    ensures FlaggedUpTo(frames, field, i + 1) ==
      FlaggedUpTo(frames, field, i) + if Flagged(frames.vals[frames.keys[i]], field) then [frames.keys[i]] else []
  {
    assert frames.keys[..i + 1][..i] == frames.keys[..i];
    assert frames.keys[i] in frames.keys;
  }

  /** The loop of `find_nan_frames` / `find_inf_frames`: append every
      flagged frame key, in the iteration order of the frames dict. */
  method CollectFlagged(frames: Dict<FrameEntry>, field: Field) returns (flagged: seq<string>)
    requires CountsReady(frames, field)
    ensures flagged == FlaggedAmong(frames, field, frames.keys)
  {
    flagged := [];
    var i := 0;
    while i < |frames.keys|
      invariant 0 <= i <= |frames.keys|
      invariant flagged == FlaggedUpTo(frames, field, i)
    {
      var k := frames.keys[i];
      FlaggedUpToStep(frames, field, i);
      if PyInt(MaxStr(Tokens(frames.vals[k], field))) > 0 {
        flagged := flagged + [k];
      }
      i := i + 1;
    }
    assert frames.keys[..i] == frames.keys;
  }

  /** The record `find_nan_frames(seqdetect)` returns: with frames, 'nans'
      becomes the list of flagged frame keys; without frames nothing
      changes. */
  function WithNans(rec: SeqRecord): SeqRecord
    requires rec.frames.keys != [] ==> CountsReady(rec.frames, NaN)
  {
    if rec.frames.keys == [] then rec
    else rec.(nans := Some(FlaggedAmong(rec.frames, NaN, rec.frames.keys)))
  }

  /** `find_nan_frames(seqdetect)` */
  method FindNanFrames(rec: SeqRecord) returns (r: SeqRecord)
    requires rec.frames.keys != [] ==> CountsReady(rec.frames, NaN)
    ensures r == WithNans(rec)
  {
    r := rec;
    if rec.frames.keys != [] {
      var flagged := CollectFlagged(rec.frames, NaN);
      r := r.(nans := Some(flagged));
    }
  }

  /** The record `find_inf_frames(seqdetect)` returns: with frames, 'infs'
      becomes the list of flagged frame keys; without frames nothing
      changes. */
  function WithInfs(rec: SeqRecord): SeqRecord
    requires rec.frames.keys != [] ==> CountsReady(rec.frames, Inf)
  {
    if rec.frames.keys == [] then rec
    else rec.(infs := Some(FlaggedAmong(rec.frames, Inf, rec.frames.keys)))
  }

  /** `find_inf_frames(seqdetect)` */
  method FindInfFrames(rec: SeqRecord) returns (r: SeqRecord)
    requires rec.frames.keys != [] ==> CountsReady(rec.frames, Inf)
    ensures r == WithInfs(rec)
  {
    r := rec;
    if rec.frames.keys != [] {
      var flagged := CollectFlagged(rec.frames, Inf);
      r := r.(infs := Some(flagged));
    }
  }

  /** The flagged list is the key list of the frames dict filtered by the
      flag test: the flagged frames, in the dict's order. */
  lemma {:induction false} FlaggedAmongIsKeysWhere(frames: Dict<FrameEntry>, field: Field, keys: seq<string>)
    requires forall k :: k in keys ==> k in frames.vals && Countable(frames.vals[k], field)
    ensures FlaggedAmong(frames, field, keys) == KeysWhere(keys, frames.vals, e => FlaggedEntry(e, field))
    decreases |keys|
  {
    if keys != [] {
      var init := keys[..|keys| - 1];
      assert forall x :: x in init ==> x in keys;
      FlaggedAmongIsKeysWhere(frames, field, init);
    }
  }

  /** A frame key is listed exactly when the frame is flagged; the list has
      no repeats, and it is the key list of the frames dict filtered to the
      flagged frames. */
  lemma FlaggedFrames(frames: Dict<FrameEntry>, field: Field)
    requires frames.Valid() && CountsReady(frames, field)
    ensures forall k :: k in FlaggedAmong(frames, field, frames.keys) <==>
      k in frames.vals && Flagged(frames.vals[k], field)
    ensures Distinct(FlaggedAmong(frames, field, frames.keys))
    ensures FlaggedAmong(frames, field, frames.keys) == Filter(frames, e => FlaggedEntry(e, field)).keys
  {
    FlaggedAmongIsKeysWhere(frames, field, frames.keys);
    KeysWhereDistinct(frames.keys, frames.vals, e => FlaggedEntry(e, field));
  }

  /** For digit-string counts, a frame is flagged exactly when one of its
      channel counts is not zero. */
  lemma FlaggedIffNonZeroChannel(e: FrameEntry, field: Field)
    requires HasField(e, field) && |Tokens(e, field)| > 0
    requires forall t :: t in Tokens(e, field) ==> |t| > 0 && IsDigits(t)
    ensures Countable(e, field)
    ensures Flagged(e, field) <==> exists t :: t in Tokens(e, field) && PyInt(t) > 0
  {
    var ts := Tokens(e, field);
    MaxStrNonZero(ts);
    DigitsValuePositive(MaxStr(ts));
    forall t | t in ts ensures PyInt(t) > 0 <==> NonZero(t) {
      DigitsValuePositive(t);
    }
  }
}

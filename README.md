# oiio_techcheck, modelled in Dafny

oiio_techcheck checks image sequences. It scans a directory and groups
its files into sequences with pyseq. For every image file that exists
(`os.path.isfile`) it parses the
output of `oiiotool --hash --stats`: a hash, and per-channel min, max,
avg, stddev, NaN and Inf counts. It then reduces each sequence to its
per-channel maximum and minimum and to the lists of frames that hold NaN
or Inf pixels. Finally it writes one JSON report per sequence that has
frames.

This project models that pipeline:

- `Stats` parses the tool output positionally (`get_oiio_stats`).
- `Scan` builds the nested sequence table (`seq_stats_checker`) and drops
  its falsy entries.
- `Reduce` holds the three reductions `find_min_max`, `find_nan_frames` and
  `find_inf_frames`.
- `Report` holds the skip rule and the file naming of `save_techchecks`.
- `Cli` composes the command-line driver.

The Python built-ins the code relies on are modelled in three modules:

- `PyStr`: `str.split`, `re.findall` over a character class, `str.lower`,
  `str.zfill`, `int`, and `max`/`min` on strings in code-point order.
- `PyPath`: `os.path.basename`, `os.path.join`, and `PurePath.name` and
  `.suffix`.
- `PyDict`: insertion-ordered dicts, with assignment, `pop` and the
  filtering loop.

The outside world is a parameter, `Scan.Env`. It gives `os.path.isdir`,
`os.path.isfile`, `pyseq.get_sequences` and the standard output of
`oiiotool` as functions of a path. The loops of the source are Dafny
methods. Each one is proved equal to a specification function, and the
properties below are proved about those functions.

Where Python would raise, the model uses a precondition. These are:

- `Stats.Parsable`: tool output that is too short.
- `Scan.SeqReadable`: a sequence stem equal to `path`.
- `Reduce.ChannelsReady`: missing stats or channels.
- `Reduce.Countable`: count tokens that `int` rejects.
- `Report.Savable`: a table whose non-`path` value is not a record.

A frame whose file does not exist keeps an empty entry, as in the code.
The image test and the scan's specification functions are generic in the
file-type test. Everything about the scan is instantiated with
`Scan.IsImage`.

## Model

| member | source | states |
|---|---|---|
| Stats.GetOiioStats | oiio_techcheck/oiio_techcheck.py:47-59 | Empty output gives an empty dict. Otherwise the result has exactly the keys hash, min, max, avg, stddev, nan and inf. `hash` holds the `[A-Z0-9]+` runs of the text between the first and second ':' of line 1 (`split(':')[1]`). The i-th numeric field holds the `[0-9.]+` runs of line i+2. |
| Stats.ParsedTokens | oiio_techcheck/oiio_techcheck.py:47-59 | Every parsed token is non-empty and made only of its class's characters. A field's tokens, joined, are exactly the class characters of its line, so no digit is lost and a '-' sign is dropped. |
| PyStr.Split | oiio_techcheck/oiio_techcheck.py:53-59 | `str.split` on one character yields at least one piece. |
| PyStr.SplitJoin | oiio_techcheck/oiio_techcheck.py:53-59 | Joining the pieces of `s.split(sep)` with `sep` gives back `s`. |
| PyStr.JoinSplit | oiio_techcheck/oiio_techcheck.py:53-59 | Pieces without the separator, once joined, split back into the same pieces. |
| PyStr.SplitPieces | oiio_techcheck/oiio_techcheck.py:53-59 | No piece of a split holds the separator. |
| PyStr.SplitCount | oiio_techcheck/oiio_techcheck.py:53-59 | A split has one piece more than the string has separators. |
| PyStr.SplitHasTwo | oiio_techcheck/oiio_techcheck.py:53 | A line holding ':' has a piece at index 1, so `split(':')[1]` is defined. |
| PyStr.SplitFirstIsFind | oiio_techcheck/oiio_techcheck.py:83 | `split(sep)[0]` is the text before the first separator. |
| PyStr.FindAllTokens | oiio_techcheck/oiio_techcheck.py:53-59 | `re.findall('[C]+', s)` yields non-empty tokens of class C only. |
| PyStr.FindAllConcat | oiio_techcheck/oiio_techcheck.py:53-59 | The tokens of `re.findall('[C]+', s)`, joined, are exactly the characters of `s` in class C. |
| PyStr.FindAllIsSplitWhere | oiio_techcheck/oiio_techcheck.py:53-59 | The maximal runs equal the non-empty pieces of `s` cut at every character outside the class. |
| PyStr.LowerStrChars | oiio_techcheck/oiio_techcheck.py:88 | `str.lower` maps every character on its own. |
| PyStr.Lower | oiio_techcheck/oiio_techcheck.py:88 | A lowered character is never an ASCII capital. A lowercase result is either the character itself or its capital. |
| PyStr.MemberIff | oiio_techcheck/oiio_techcheck.py:88 | The list test `x in FILETYPES` holds exactly when `x` is one of the listed strings. |
| PyStr.NatToStrRoundTrip | oiio_techcheck/oiio_techcheck.py:89 | `int(str(n)) == n` for every non-negative `n`. |
| PyStr.ZerosValue | oiio_techcheck/oiio_techcheck.py:89 | A string of zeros, the zfill padding, has value 0. |
| PyStr.ZerosDoNotCount | oiio_techcheck/oiio_techcheck.py:89 | Leading zeros do not change the value of a digit string. |
| PyStr.MaxStr | oiio_techcheck/oiio_techcheck.py:121 | Python's `max` on strings: the result is an element and no element exceeds it in code-point order. |
| PyStr.MinStr | oiio_techcheck/oiio_techcheck.py:122 | Python's `min` on strings: the result is an element and exceeds no element in code-point order. |
| PyStr.LexTotal | oiio_techcheck/oiio_techcheck.py:121-122 | Any two strings are ordered one way or the other, or are equal. |
| PyStr.LexLtTransitive | oiio_techcheck/oiio_techcheck.py:121-122 | String order is transitive. |
| PyStr.LexLtAsymmetric | oiio_techcheck/oiio_techcheck.py:121-122 | String order is asymmetric. |
| PyStr.LexMaxUnique | oiio_techcheck/oiio_techcheck.py:121 | A greatest element of a list of strings is unique. |
| PyStr.LexMinUnique | oiio_techcheck/oiio_techcheck.py:122 | A least element of a list of strings is unique. |
| PyStr.DigitsValuePositive | oiio_techcheck/oiio_techcheck.py:139 | `int(s) > 0` exactly when the digit string `s` has a non-zero digit. |
| PyStr.MaxStrNonZero | oiio_techcheck/oiio_techcheck.py:139 | The string-order maximum of digit strings has a non-zero digit exactly when one of them does. No canonical form is needed. |
| PyPath.BasenameShape | oiio_techcheck/oiio_techcheck.py:83 | `os.path.basename` is the tail of the path after its last '/' and holds no '/'. |
| PyPath.PathJoinEnds | oiio_techcheck/oiio_techcheck.py:86 | `os.path.join(a, b)` ends with `b`. It starts with `a` when `b` is relative and `a` is not empty. |
| PyPath.BasenameOfJoin | oiio_techcheck/oiio_techcheck.py:175-176 | The base name of `os.path.join(a, b)` is `b` when `b` is a non-empty name without '/'. |
| PyPath.PathNameShape | oiio_techcheck/oiio_techcheck.py:88 | `PurePath(p).name` has no '/' and is never '.'. It equals the base name whenever that is neither empty nor '.'. |
| PyPath.PathNameTrailing | oiio_techcheck/oiio_techcheck.py:88 | A trailing '/' or '/.' does not change `PurePath(p).name`. |
| PyPath.RFindLast | oiio_techcheck/oiio_techcheck.py:88 | `rfind` finds the last occurrence, or reports -1 when there is none. |
| PyPath.SuffixShape | oiio_techcheck/oiio_techcheck.py:88 | A non-empty suffix is a '.' with at least one more character and no second '.'. It ends a name that has something before it. |
| PyDict.SetValid | oiio_techcheck/oiio_techcheck.py:80-93 | `d[k] = v` keeps the dict consistent and maps `k` to `v`. An existing key keeps its place in the key order; a new key goes at the end. |
| PyDict.SetLookup | oiio_techcheck/oiio_techcheck.py:80-93 | After `d[k] = v`, `d[k]` is `v` and every other key keeps its value. |
| PyDict.SetAllKeys | oiio_techcheck/oiio_techcheck.py:84-93 | A run of assignments with new keys appends those keys in first-seen order. |
| PyDict.SetAllLast | oiio_techcheck/oiio_techcheck.py:84-93 | After a run of assignments, a key holds the value of its last assignment. |
| PyDict.Filter | oiio_techcheck/oiio_techcheck.py:97-100 | The filtered dict holds exactly the kept keys, with their old values. |
| PyDict.FilterValid | oiio_techcheck/oiio_techcheck.py:97-100 | Filtering keeps the dict consistent. |
| PyDict.PrunedStep | oiio_techcheck/oiio_techcheck.py:97-100 | One step of the pop loop moves the dict one key further towards the filtered dict. |
| PyDict.UpdatedUpToStep | oiio_techcheck/oiio_techcheck_cli.py:19-23 | In `for k in d: d[k] = f(k, d[k])`, key `i` still holds its old value. Assigning `f` of it is the next step, because keys are distinct. |
| PyDict.UpdatedUpToEnds | oiio_techcheck/oiio_techcheck_cli.py:19-23 | That loop starts from the dict itself and ends at `{k: f(k, v)}` with the key order kept. |
| Records.StemShape | oiio_techcheck/oiio_techcheck.py:83 | `os.path.basename(p).split('.')[0]` holds neither '/' nor '.'. It is a prefix of the base name, followed by '.' or the end. |
| Records.ShapedSet | oiio_techcheck/oiio_techcheck.py:83-86 | Storing a record under a stem other than 'path' keeps the table's shape. |
| Scan.IsImageTrailing | oiio_techcheck/oiio_techcheck.py:88 | The file-type test reads `PurePath(path).name`, so a trailing '/' or '/.' does not change it. |
| Scan.ScanTable | oiio_techcheck/oiio_techcheck.py:76-93 | The table built before cleanup is a consistent dict. |
| Scan.SeqStatsChecker | oiio_techcheck/oiio_techcheck.py:76-101 | Both loops and the cleanup together give exactly the specification table without its falsy values. A non-directory gives an empty dict. The result is well-shaped. |
| Scan.ScanFrames | oiio_techcheck/oiio_techcheck.py:87-93 | The inner loop over a sequence's files builds exactly the frames dict of the specification. |
| Scan.RemoveEmptyItems | oiio_techcheck/oiio_techcheck.py:97-100 | Popping every falsy item from a snapshot of the keys gives the order-preserving filter of the truthy values. |
| Scan.ImagesMembers | oiio_techcheck/oiio_techcheck.py:87-88 | A file is kept exactly when it belongs to the sequence and passes the file-type test. |
| Scan.FrameKeyOfNonNegative | oiio_techcheck/oiio_techcheck.py:89 | For a frame number that is not negative, `str(frame).zfill(pad)` has length max(len, pad). It is zeros then the digits, and reads back as the frame. |
| Scan.FrameKeyOfNegative | oiio_techcheck/oiio_techcheck.py:89 | For a negative frame number, zfill keeps the '-' in front of the zeros and the digits. |
| Scan.FrameKeysDistinct | oiio_techcheck/oiio_techcheck.py:89 | Distinct frame numbers that are not negative get distinct keys. |
| Scan.CollectFramesValid | oiio_techcheck/oiio_techcheck.py:87-93 | The frames dict is consistent. |
| Scan.CollectFramesKeys | oiio_techcheck/oiio_techcheck.py:87-93 | The frames dict's keys are the image files' frame keys in first-seen order, without repeats. |
| Scan.CollectFramesLastWins | oiio_techcheck/oiio_techcheck.py:89-93 | A frame key holds the entry of the last image file with that key. The entry has stats exactly when the file exists, and the stats are the parse of its tool output. |
| Scan.SeqEntriesKeys | oiio_techcheck/oiio_techcheck.py:83 | The stems are the keys the outer loop assigns, and none is 'path'. |
| Scan.AddSequencesKeys | oiio_techcheck/oiio_techcheck.py:80-86 | The table holds 'path' first, with the directory, then the stems in first-seen order. |
| Scan.AddSequencesLastWins | oiio_techcheck/oiio_techcheck.py:83-93 | A stem holds the record of the last sequence with that stem. |
| Scan.AddSequencesShaped | oiio_techcheck/oiio_techcheck.py:80-93 | 'path' holds a string and every other key a record with a consistent frames dict. |
| Scan.ScanIsShaped | oiio_techcheck/oiio_techcheck.py:76-101 | The scan table is well-shaped, before and after cleanup. |
| Scan.ScanResultKeys | oiio_techcheck/oiio_techcheck.py:76-101 | For a directory, the result's keys are 'path' (unless the path string is empty) and then the distinct stems in order. |
| Reduce.Column | oiio_techcheck/oiio_techcheck.py:115-120 | A channel column has one token per frame. |
| Reduce.ColumnMembers | oiio_techcheck/oiio_techcheck.py:115-120 | The column's tokens are exactly the channel tokens of the frames. |
| Reduce.MaximaChannel | oiio_techcheck/oiio_techcheck.py:115-122 | Channel `c` of the maxima is some frame's 'max' token and no frame's token exceeds it. |
| Reduce.MinimaChannel | oiio_techcheck/oiio_techcheck.py:115-122 | Channel `c` of the minima is some frame's 'min' token and exceeds no frame's token. |
| Reduce.FindMinMax | oiio_techcheck/oiio_techcheck.py:104-124 | Without frames the record is unchanged. With frames, 'maximum' and 'minimum' get three values each. No other field changes. |
| Reduce.FindMinMaxChannel | oiio_techcheck/oiio_techcheck.py:113-124 | Each channel of 'maximum' is the greatest 'max' token of that channel over all frames. Each channel of 'minimum' is the least 'min' token. |
| Reduce.MaximumUnique | oiio_techcheck/oiio_techcheck.py:115-121 | Any frame token that no other token of its channel exceeds is the stored maximum. |
| Reduce.MinimumUnique | oiio_techcheck/oiio_techcheck.py:115-122 | Any frame token that exceeds no other token of its channel is the stored minimum. |
| Reduce.CollectFlagged | oiio_techcheck/oiio_techcheck.py:136-141 | The loop collects exactly the specification's flagged frame keys, in frames order. |
| Reduce.FindNanFrames | oiio_techcheck/oiio_techcheck.py:127-141 | Without frames nothing changes. With frames, 'nans' becomes the flagged list for the 'nan' field. |
| Reduce.FindInfFrames | oiio_techcheck/oiio_techcheck.py:144-158 | Without frames nothing changes. With frames, 'infs' becomes the flagged list for the 'inf' field. |
| Reduce.FlaggedAmongIsKeysWhere | oiio_techcheck/oiio_techcheck.py:136-141 | The flagged list is the frame keys filtered by the flag test, in order. |
| Reduce.FlaggedFrames | oiio_techcheck/oiio_techcheck.py:136-141 | A frame is listed exactly when `int(max(tokens)) > 0`. The list has no repeats and equals the keys of the frames dict filtered by the test. |
| Reduce.FlaggedIffNonZeroChannel | oiio_techcheck/oiio_techcheck.py:139 | For digit tokens, `int(max(tokens)) > 0` holds exactly when some channel's count is positive. |
| Report.ReportNameChars | oiio_techcheck/oiio_techcheck.py:175-176 | The report name has no '/'. Its first '.' is the one of `.json`, after `stem + "_techcheck"`. |
| Report.ReportNameShape | oiio_techcheck/oiio_techcheck.py:175-176 | The stem has no '/' or '.'. The report lands directly in the output directory, and the stem of its path is the record's stem followed by `_techcheck`. |
| Report.SaveTechchecks | oiio_techcheck/oiio_techcheck.py:172-178 | The loop issues exactly the specification's writes, in key order. |
| Report.WritesMembers | oiio_techcheck/oiio_techcheck.py:172-176 | A report is written for exactly each key other than 'path' whose record has frames, under its report path, and for nothing else. |
| Cli.Reduced | oiio_techcheck/oiio_techcheck_cli.py:21-23 | The three reductions keep a record's frames and path. |
| Cli.ReduceRecord | oiio_techcheck/oiio_techcheck_cli.py:21-23 | The loop body applies find_min_max, then find_nan_frames, then find_inf_frames. |
| Cli.ReducedUpToStep | oiio_techcheck/oiio_techcheck_cli.py:19-23 | Key `i` still holds its scanned value when the loop reaches it. 'path' is skipped and any other key gets its reduced record. |
| Cli.ReduceRecords | oiio_techcheck/oiio_techcheck_cli.py:19-23 | The loop leaves every record reduced and 'path' untouched, with the key order kept. |
| Cli.RunChecks | oiio_techcheck/oiio_techcheck_cli.py:17-24 | The driver scans, reduces, then saves. Its table is the reduced scan result and its writes are those of `save_techchecks` on that table. |
| Cli.ReducedTableShaped | oiio_techcheck/oiio_techcheck_cli.py:19-23 | Reducing keeps the keys, the shape, and every record's frames and path. |
| Cli.ReducedRecord | oiio_techcheck/oiio_techcheck_cli.py:19-23 | A record with frames ends up with all four results: maxima, minima, NaN frames and Inf frames. A record without frames is unchanged. |
| Cli.ReportsComplete | oiio_techcheck/oiio_techcheck_cli.py:17-24 | Every written report holds all four results. Every sequence with frames gets a report. |

## Left out

- The `oiiotool` subprocess and the logging of its stderr (oiio_techcheck/oiio_techcheck.py:40-45, 61-62) are left out. The tool's standard output is the field `Scan.Env.oiiotool`.
- The module-level log-file setup (lines 10-25) and the log calls (lines 78, 95, 179) are left out, because they are I/O.
- `open` and `json.dump` in `save_techchecks` (lines 177-178) are left out. `Report.SaveTechchecks` returns the ordered list of (file path, record) writes. JSON layout and key order within a report are not modelled.
- Argument parsing in the driver (oiio_techcheck_cli.py:1-15) is left out. The directory and the output directory are parameters.
- Scan.Env: `os.path.isdir`, `os.path.isfile`, `pyseq.get_sequences` and the oiiotool output are pure functions of the path, i.e. a fixed snapshot of the file system. pyseq's sequence detection itself is not modelled.
- Stats.GetOiioStats: output that is not empty but has fewer than 8 lines, or has no ':' on line 1, raises an IndexError in Python. `requires Parsable` excludes it.
- Scan.SeqReadable: a sequence whose stem is 'path' would replace `seqdict['path']`, and the next `os.path.join(dict, ...)` raises a TypeError. It is excluded by this precondition, as is tool output that would raise in parsing.
- Reduce.ChannelsReady: a frame without stats (missing file) raises a KeyError in `find_min_max`, and fewer than three channels raise an IndexError. This precondition excludes both.
- Reduce.Countable: `max([])` on an empty count list and `int()` of a token containing '.' raise a ValueError. This precondition excludes both.
- Reduce.FindMinMax: the Python functions mutate the caller's dict and return it. The model returns a new record value, and the driver stores it back. Nothing else aliases a record, so this does not change the results, but in-place update is not modelled.
- Reduce.FindMinMax: 'maximum' and 'minimum' are Python tuples. They are modelled as sequences of three strings.
- PyStr.LowerStr: only ASCII letters are lowered. Non-ASCII case mapping is not modelled.
- PyPath.PathName: pathlib's handling of a leading '//' does not affect the name and is not modelled.

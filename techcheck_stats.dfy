/** The parsing half of `get_oiio_stats` (oiio_techcheck.py): the standard
    output of `oiiotool --hash --stats <file>` is read by line position. */
module Stats {
  import opened PyStr

  /** The keys of the stats dictionary: 'hash', 'min', 'max', 'avg',
      'stddev', 'nan' and 'inf'. */
  datatype Field = Hash | Min | Max | Avg | StdDev | NaN | Inf

  /** The dictionary `get_oiio_stats` returns: field to its tokens, which
      stay strings. */
  type StatsDict = map<Field, seq<string>>

  /** The six numeric fields, in the order of output lines 2 to 7. */
  const NumericFields: seq<Field> := [Min, Max, Avg, StdDev, NaN, Inf]

  /** Every key of a parsed, non-empty output. */
  const StatKeys: set<Field> := {Hash, Min, Max, Avg, StdDev, NaN, Inf}

  /** The class `[A-Z0-9]` of the hash pattern. */
  predicate IsHashChar(c: char) { 'A' <= c <= 'Z' || '0' <= c <= '9' }

  /** The class `[0-9.]` of the number pattern. */
  predicate IsNumberChar(c: char) { '0' <= c <= '9' || c == '.' }

  /** `stdout.split('\n')` */
  function Lines(stdout: string): seq<string>
  {
    Split(stdout, '\n')
  }

  /** Output the positional parser can index without an IndexError: eight
      lines at least, and a ':' on line index 1. */
  predicate Indexable(stdout: string)
  {
    |Lines(stdout)| >= 8 && ':' in Lines(stdout)[1]
  }

  /** Output `get_oiio_stats` can handle: empty, or indexable. */
  predicate Parsable(stdout: string)
  {
    stdout == [] || Indexable(stdout)
  }

  /** `stdout.split('\n')[1].split(':')[1]`: the text after the first colon
      of the hash line, up to any second colon. */
  function HashField(stdout: string): string
    requires Indexable(stdout)
  {
    SplitHasTwo(Lines(stdout)[1], ':');
    Split(Lines(stdout)[1], ':')[1]
  }

  /** `get_oiio_stats` given the tool's standard output: nothing for empty
      output; otherwise the hash tokens of line 1 and the number tokens of
      lines 2 to 7, one field per line. */
  function GetOiioStats(stdout: string): (r: StatsDict)
    requires Parsable(stdout)
    ensures stdout == [] <==> r == map[]
    ensures stdout != [] ==> r.Keys == StatKeys
    ensures stdout != [] ==> r[Hash] == FindAll(HashField(stdout), IsHashChar)
    ensures stdout != [] ==>
      forall i :: 0 <= i < |NumericFields| ==> r[NumericFields[i]] == FindAll(Lines(stdout)[i + 2], IsNumberChar)
  {
    if stdout == [] then map[]
    else
      var lines := Lines(stdout);
      var r := map[
        Hash := FindAll(HashField(stdout), IsHashChar),
        Min := FindAll(lines[2], IsNumberChar),
        Max := FindAll(lines[3], IsNumberChar),
        Avg := FindAll(lines[4], IsNumberChar),
        StdDev := FindAll(lines[5], IsNumberChar),
        NaN := FindAll(lines[6], IsNumberChar),
        Inf := FindAll(lines[7], IsNumberChar)
      ];
      assert Hash in r;
      r
  }

  /** Token shape of a parsed output. Every token is non-empty and made
      only of characters of its field's class. The tokens of a field, run
      together, are exactly the characters of its line that belong to the
      class. So a '-' in front of a number is dropped, never kept, and no
      digit is lost. */
  lemma ParsedTokens(stdout: string, i: nat)
    requires Indexable(stdout) && i < |NumericFields|
    ensures TokensIn(GetOiioStats(stdout)[NumericFields[i]], IsNumberChar)
    ensures Concat(GetOiioStats(stdout)[NumericFields[i]]) == Keep(Lines(stdout)[i + 2], IsNumberChar)
    ensures TokensIn(GetOiioStats(stdout)[Hash], IsHashChar)
    ensures Concat(GetOiioStats(stdout)[Hash]) == Keep(HashField(stdout), IsHashChar)
  {
    assert stdout != [] by { assert |Lines(stdout)| >= 8; }
    FindAllTokens(Lines(stdout)[i + 2], IsNumberChar);
    FindAllConcat(Lines(stdout)[i + 2], IsNumberChar);
    FindAllTokens(HashField(stdout), IsHashChar);
    FindAllConcat(HashField(stdout), IsHashChar);
  }
}

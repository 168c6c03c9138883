/** The POSIX path helpers the tech-check uses: `os.path.basename`,
    `os.path.join` with two arguments, and `pathlib.PurePath.name` and
    `.suffix`. */
module PyPath {

  /** `os.path.basename(p)`: everything after the last '/'. */
  function Basename(p: string): string
    decreases |p|
  {
    if p == [] then []
    else if p[|p| - 1] == '/' then []
    else Basename(p[..|p| - 1]) + [p[|p| - 1]]
  }

  /** The base name is the tail of the path after its last '/'. */
  lemma {:induction false} BasenameShape(p: string)
    ensures '/' !in Basename(p)
    ensures |Basename(p)| <= |p| && p[|p| - |Basename(p)|..] == Basename(p)
    ensures |Basename(p)| < |p| ==> p[|p| - |Basename(p)| - 1] == '/'
    decreases |p|
  {
    if p != [] && p[|p| - 1] != '/' {
      var init := p[..|p| - 1];
      BasenameShape(init);
      var b := Basename(init);
      assert Basename(p) == b + [p[|p| - 1]];
      assert p[|p| - |b| - 1..] == init[|init| - |b|..] + [p[|p| - 1]];
      if |b| < |init| {
        assert p[|p| - |b| - 2] == init[|init| - |b| - 1];
      }
    }
  }

  /** A tail without '/' is kept whole by `basename`. */
  lemma {:induction false} BasenameOfTail(x: string, b: string)
    requires '/' !in b
    requires x == [] || x[|x| - 1] == '/'
    ensures Basename(x + b) == b
    decreases |b|
  {
    if b == [] {
      assert x + b == x;
    } else {
      var init := b[..|b| - 1];
      assert (x + b)[..|x + b| - 1] == x + init;
      assert b[|b| - 1] in b;
      BasenameOfTail(x, init);
      assert b == init + [b[|b| - 1]];
    }
  }

  /** `os.path.join(a, b)` on POSIX: an absolute `b` replaces `a`;
      otherwise a '/' is inserted unless `a` is empty or already ends in one. */
  function PathJoin(a: string, b: string): string
  {
    if |b| > 0 && b[0] == '/' then b
    else if a == [] || a[|a| - 1] == '/' then a + b
    else a + "/" + b
  }

  /** A joined path ends with the joined name, and starts with the
      directory unless the name is absolute. */
  lemma PathJoinEnds(a: string, b: string)
    ensures var r := PathJoin(a, b);
      |b| <= |r| && r[|r| - |b|..] == b
      && ((b == [] || b[0] != '/') && a != [] ==> |a| <= |r| && r[..|a|] == a)
  {
  }

  /** The last component of a joined path is the relative name that was
      joined on, when that name has no '/'. */
  lemma BasenameOfJoin(a: string, b: string)
    requires b != [] && '/' !in b
    ensures Basename(PathJoin(a, b)) == b
  {
    assert b[0] in b;
    if a == [] || a[|a| - 1] == '/' {
      BasenameOfTail(a, b);
    } else {
      assert a + "/" + b == (a + "/") + b;
      BasenameOfTail(a + "/", b);
    }
  }

  /** `PurePath(p).name`: pathlib drops empty and '.' components, so the
      name is the last component that remains, or empty when none does. */
  function PathName(p: string): string
    decreases |p|
  {
    if p == [] then []
    else if p[|p| - 1] == '/' || Basename(p) == "." then PathName(p[..|p| - 1])
    else Basename(p)
  }

  /** The name has no '/' and is never '.'; it is the base name whenever
      that is neither empty nor '.'. */
  lemma {:induction false} PathNameShape(p: string)
    ensures '/' !in PathName(p) && PathName(p) != "."
    ensures Basename(p) != [] && Basename(p) != "." ==> PathName(p) == Basename(p)
    decreases |p|
  {
    BasenameShape(p);
    if p != [] && (p[|p| - 1] == '/' || Basename(p) == ".") {
      PathNameShape(p[..|p| - 1]);
    }
  }

  /** A trailing '/' or '/.' does not change the name. */
  lemma PathNameTrailing(p: string)
    ensures PathName(p + "/") == PathName(p)
    ensures PathName(p + "/.") == PathName(p)
  {
    assert (p + "/")[..|p|] == p;
    BasenameOfTail(p + "/", ".");
    assert (p + "/.")[..|p| + 1] == p + "/";
    assert PathName(p + "/.") == PathName(p + "/");
  }

  /** Index of the last `c` in `s`, or -1 (`s.rfind(c)`). */
  function RFind(s: string, c: char): int
    decreases |s|
  {
    if s == [] then -1
    else if s[|s| - 1] == c then |s| - 1
    else RFind(s[..|s| - 1], c)
  }

  /** `rfind` finds the last occurrence, or reports that there is none. */
  lemma {:induction false} RFindLast(s: string, c: char)
    ensures -1 <= RFind(s, c) < |s|
    ensures RFind(s, c) >= 0 ==> s[RFind(s, c)] == c
    ensures forall j :: RFind(s, c) < j < |s| ==> s[j] != c
    decreases |s|
  {
    if s != [] && s[|s| - 1] != c {
      RFindLast(s[..|s| - 1], c);
    }
  }

  /** `PurePath(name).suffix` for a final component `name`: from the last
      '.' on, provided that dot is neither the first nor the last
      character; otherwise empty. */
  function Suffix(name: string): string
  {
    var i := RFind(name, '.');
    if 0 < i < |name| - 1 then name[i..] else []
  }

  /** A suffix is a '.' and at least one more character, with no second
      '.', at the end of a name that has something before it. */
  lemma SuffixShape(name: string)
    ensures var x := Suffix(name);
      x != [] ==> 2 <= |x| < |name| && x[0] == '.' && '.' !in x[1..] && name[|name| - |x|..] == x
  {
    RFindLast(name, '.');
    var i := RFind(name, '.');
    if 0 < i < |name| - 1 {
      assert forall j :: 0 <= j < |name[i..][1..]| ==> name[i..][1..][j] == name[i + 1 + j];
    }
  }
}

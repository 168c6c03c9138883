/** The Python string built-ins the tech-check relies on: `str.split`,
    `re.findall` with a single character class, `str.lower`, `str(int)`,
    `int(str)`, `str.zfill` and the code-point ordering that `max` and `min`
    use on strings, and the list comprehension `[f(x) for x in xs]`. */
module PyStr {

  // ---------------------------------------------------------------------
  // str.split(sep) and sep.join(parts)
  // ---------------------------------------------------------------------

  /** `s.split(sep)` for a one-character separator: the pieces between the
      separators, empty ones included; there is always at least one piece. */
  function Split(s: string, sep: char): (parts: seq<string>)
    ensures |parts| >= 1
    decreases |s|
  {
    if s == [] then [[]]
    else
      var rest := Split(s[1..], sep);
      if s[0] == sep then [[]] + rest else [[s[0]] + rest[0]] + rest[1..]
  }

  /** `sep.join(parts)` */
  function Join(parts: seq<string>, sep: char): string
    decreases |parts|
  {
    if parts == [] then []
    else if |parts| == 1 then parts[0]
    else parts[0] + [sep] + Join(parts[1..], sep)
  }

  /** `s.count(c)` */
  function Count(s: string, c: char): nat
    decreases |s|
  {
    if s == [] then 0 else (if s[0] == c then 1 else 0) + Count(s[1..], c)
  }

  /** Joining the pieces back with the separator gives the string
      again. */
  lemma {:induction false} SplitJoin(s: string, sep: char)
    ensures Join(Split(s, sep), sep) == s
    decreases |s|
  {
    if s != [] {
      SplitJoin(s[1..], sep);
      var rest := Split(s[1..], sep);
      assert s == [s[0]] + s[1..];
      if s[0] != sep {
        var first := [s[0]] + rest[0];
        assert Split(s, sep) == [first] + rest[1..];
        if |rest| > 1 {
          assert Join(rest, sep) == rest[0] + [sep] + Join(rest[1..], sep);
          assert ([first] + rest[1..])[1..] == rest[1..];
          assert Join([first] + rest[1..], sep) == first + [sep] + Join(rest[1..], sep);
        }
      }
    }
  }

  /** No piece holds the separator. */
  lemma {:induction false} SplitPieces(s: string, sep: char)
    ensures forall p :: p in Split(s, sep) ==> sep !in p
    decreases |s|
  {
    if s != [] {
      SplitPieces(s[1..], sep);
      var rest := Split(s[1..], sep);
      if s[0] != sep {
        var first := [s[0]] + rest[0];
        assert Split(s, sep) == [first] + rest[1..];
        assert sep !in rest[0];
        forall p | p in Split(s, sep) ensures sep !in p {
          if p != first {
            assert p in rest;
          }
        }
      }
    }
  }

  /** There is one piece more than there are separators. */
  lemma {:induction false} SplitCount(s: string, sep: char)
    ensures |Split(s, sep)| == Count(s, sep) + 1
    decreases |s|
  {
    if s != [] {
      SplitCount(s[1..], sep);
    }
  }

  /** `s.split(sep)[0]`: the prefix of `s` before its first separator. */
  lemma {:induction false} SplitFirst(s: string, sep: char)
    ensures |Split(s, sep)[0]| <= |s| && s[..|Split(s, sep)[0]|] == Split(s, sep)[0]
    ensures sep !in Split(s, sep)[0]
    ensures |Split(s, sep)[0]| < |s| ==> s[|Split(s, sep)[0]|] == sep
    decreases |s|
  {
    if s != [] && s[0] != sep {
      SplitFirst(s[1..], sep);
      var f := Split(s[1..], sep)[0];
      assert Split(s, sep)[0] == [s[0]] + f;
      assert s[..|f| + 1] == [s[0]] + s[1..][..|f|];
    }
  }

  /** `s.find(c)` when `c` occurs, `len(s)` otherwise. */
  function FindOr(s: string, c: char): (i: nat)
    ensures i <= |s|
    decreases |s|
  {
    if s == [] then 0
    else
      var k := FindOr(s[..|s| - 1], c);
      if k < |s| - 1 then k else if s[|s| - 1] == c then |s| - 1 else |s|
  }

  /** The position found is the first `c`, or the end when there is none. */
  lemma {:induction false} FindOrFirst(s: string, c: char)
    ensures c !in s[..FindOr(s, c)]
    ensures FindOr(s, c) < |s| ==> s[FindOr(s, c)] == c
    decreases |s|
  {
    if s != [] {
      var init := s[..|s| - 1];
      FindOrFirst(init, c);
      var k := FindOr(init, c);
      assert s[..k] == init[..k];
      if k == |init| {
        assert s[..|s|] == init + [s[|s| - 1]];
      }
    }
  }

  /** The first `c` is where `c` stands with no `c` before it. */
  lemma FindOrAt(s: string, c: char, j: nat)
    requires j < |s| && s[j] == c && c !in s[..j]
    ensures FindOr(s, c) == j
  {
    FindOrFirst(s, c);
  }

  /** `s.split(sep)[0]` is the text before the first separator. */
  lemma SplitFirstIsFind(s: string, sep: char)
    ensures Split(s, sep)[0] == s[..FindOr(s, sep)]
  {
    SplitFirst(s, sep);
    FindOrFirst(s, sep);
  }

  /** A character occurs exactly when it is counted. */
  lemma {:induction false} CountIn(s: string, c: char)
    ensures c in s <==> Count(s, c) > 0
    decreases |s|
  {
    if s != [] {
      CountIn(s[1..], c);
      assert s == [s[0]] + s[1..];
    }
  }

  /** A string holding the separator splits into at least two pieces. */
  lemma SplitHasTwo(s: string, sep: char)
    requires sep in s
    ensures |Split(s, sep)| >= 2
  {
    CountIn(s, sep);
    SplitCount(s, sep);
  }

  /** A piece without the separator splits to itself. */
  lemma {:induction false} SplitNoSep(a: string, sep: char)
    requires sep !in a
    ensures Split(a, sep) == [a]
    decreases |a|
  {
    if a != [] {
      SplitNoSep(a[1..], sep);
      assert a == [a[0]] + a[1..];
    }
  }

  /** Splitting `a + [sep] + b`, where `a` has no separator, gives `a` and
      then the pieces of `b`. */
  lemma {:induction false} SplitAfterPiece(a: string, b: string, sep: char)
    requires sep !in a
    ensures Split(a + [sep] + b, sep) == [a] + Split(b, sep)
    decreases |a|
  {
    if a == [] {
      assert a + [sep] + b == [sep] + b;
      assert ([sep] + b)[1..] == b;
    } else {
      var s := a + [sep] + b;
      assert s[1..] == a[1..] + [sep] + b;
      SplitAfterPiece(a[1..], b, sep);
      assert a == [a[0]] + a[1..];
    }
  }

  /** The other round trip: pieces without the separator are recovered by
      splitting their join. */
  lemma {:induction false} JoinSplit(parts: seq<string>, sep: char)
    requires |parts| >= 1
    requires forall p :: p in parts ==> sep !in p
    ensures Split(Join(parts, sep), sep) == parts
    decreases |parts|
  {
    if |parts| == 1 {
      SplitNoSep(parts[0], sep);
    } else {
      assert parts[0] in parts;
      forall p | p in parts[1..] ensures sep !in p {
        assert p in parts;
      }
      JoinSplit(parts[1..], sep);
      SplitAfterPiece(parts[0], Join(parts[1..], sep), sep);
      assert parts == [parts[0]] + parts[1..];
    }
  }

  // ---------------------------------------------------------------------
  // re.findall('[...]+', s): maximal runs of one character class
  // ---------------------------------------------------------------------

  /** Length of the longest prefix of `s` whose characters are all in `p`. */
  function RunLength(s: string, p: char -> bool): (n: nat)
    ensures n <= |s|
    ensures forall i :: 0 <= i < n ==> p(s[i])
    ensures n < |s| ==> !p(s[n])
    decreases |s|
  {
    if s == [] || !p(s[0]) then 0 else 1 + RunLength(s[1..], p)
  }

  /** `re.findall('[C]+', s)` for a character class C given as `p`: the
      maximal runs of characters in C, scanned left to right. */
  function FindAll(s: string, p: char -> bool): (tokens: seq<string>)
    decreases |s|
  {
    if s == [] then []
    else if !p(s[0]) then FindAll(s[1..], p)
    else
      var n := RunLength(s, p);
      [s[..n]] + FindAll(s[n..], p)
  }

  /** The characters of `s` that are in `p`, in order. */
  function Keep(s: string, p: char -> bool): string
    decreases |s|
  {
    if s == [] then [] else (if p(s[0]) then [s[0]] else []) + Keep(s[1..], p)
  }

  /** `''.join(tokens)` */
  function Concat(tokens: seq<string>): string
    decreases |tokens|
  {
    if tokens == [] then [] else tokens[0] + Concat(tokens[1..])
  }

  /** Reference definition of the same tokens: cut `s` at every character
      outside `p` (like `re.split('[^C]', s)`), keeping empty pieces. */
  function SplitWhere(s: string, p: char -> bool): (pieces: seq<string>)
    ensures |pieces| >= 1
    decreases |s|
  {
    if s == [] then [[]]
    else
      var rest := SplitWhere(s[1..], p);
      if !p(s[0]) then [[]] + rest else [[s[0]] + rest[0]] + rest[1..]
  }

  /** The non-empty strings of `xs`, in order. */
  function NonEmpty(xs: seq<string>): seq<string>
    decreases |xs|
  {
    if xs == [] then [] else (if xs[0] == [] then [] else [xs[0]]) + NonEmpty(xs[1..])
  }

  /** Every token is non-empty and made only of characters in `p`. */
  predicate TokensIn(tokens: seq<string>, p: char -> bool)
  {
    forall t :: t in tokens ==> |t| > 0 && forall i :: 0 <= i < |t| ==> p(t[i])
  }

  /** Every token is non-empty and made only of characters in the class. */
  lemma {:induction false} FindAllTokens(s: string, p: char -> bool)
    ensures TokensIn(FindAll(s, p), p)
    decreases |s|
  {
    if s != [] {
      FindAllTokens(s[1..], p);
      if p(s[0]) {
        var n := RunLength(s, p);
        FindAllTokens(s[n..], p);
      }
    }
  }

  lemma {:induction false} KeepAppend(a: string, b: string, p: char -> bool)
    ensures Keep(a + b, p) == Keep(a, p) + Keep(b, p)
    decreases |a|
  {
    if a != [] {
      assert (a + b)[1..] == a[1..] + b;
      KeepAppend(a[1..], b, p);
    } else {
      assert a + b == b;
    }
  }

  lemma {:induction false} KeepAll(a: string, p: char -> bool)
    requires forall i :: 0 <= i < |a| ==> p(a[i])
    ensures Keep(a, p) == a
    decreases |a|
  {
    if a != [] {
      KeepAll(a[1..], p);
      assert a == [a[0]] + a[1..];
    }
  }

  /** Concatenating the tokens gives exactly the characters of `s` that are
      in the class, in order: nothing in the class is dropped and nothing
      outside it is kept. */
  lemma {:induction false} FindAllConcat(s: string, p: char -> bool)
    ensures Concat(FindAll(s, p)) == Keep(s, p)
    decreases |s|
  {
    if s != [] {
      if !p(s[0]) {
        FindAllConcat(s[1..], p);
      } else {
        var n := RunLength(s, p);
        FindAllConcat(s[n..], p);
        assert s == s[..n] + s[n..];
        KeepAppend(s[..n], s[n..], p);
        KeepAll(s[..n], p);
        assert ([s[..n]] + FindAll(s[n..], p))[1..] == FindAll(s[n..], p);
      }
    }
  }

  /** Splitting inside a leading run of class characters glues that run to
      the first piece of the remainder. */
  lemma {:induction false} SplitWherePrefix(s: string, p: char -> bool, k: nat)
    requires k <= |s|
    requires forall i :: 0 <= i < k ==> p(s[i])
    ensures SplitWhere(s, p) == [s[..k] + SplitWhere(s[k..], p)[0]] + SplitWhere(s[k..], p)[1..]
    decreases k
  {
    if k == 0 {
      assert s[..0] == [] && s[0..] == s;
      var w := SplitWhere(s, p);
      assert s[..0] + w[0] == w[0];
      assert w == [w[0]] + w[1..];
    } else {
      SplitWherePrefix(s[1..], p, k - 1);
      assert s[1..][k - 1..] == s[k..];
      var w := SplitWhere(s[k..], p);
      var rest := SplitWhere(s[1..], p);
      assert rest == [s[1..][..k - 1] + w[0]] + w[1..];
      assert p(s[0]);
      assert SplitWhere(s, p) == [[s[0]] + rest[0]] + rest[1..];
      assert [s[0]] + (s[1..][..k - 1] + w[0]) == s[..k] + w[0];
    }
  }

  lemma NonEmptyAppend(xs: seq<string>, ys: seq<string>)
    ensures NonEmpty(xs + ys) == NonEmpty(xs) + NonEmpty(ys)
    decreases |xs|
  {
    if xs != [] {
      assert (xs + ys)[1..] == xs[1..] + ys;
      NonEmptyAppend(xs[1..], ys);
    } else {
      assert xs + ys == ys;
    }
  }

  /** `FindAll` agrees with the reference definition: the maximal runs are
      exactly the non-empty pieces between characters outside the class. */
  lemma {:induction false} FindAllIsSplitWhere(s: string, p: char -> bool)
    ensures FindAll(s, p) == NonEmpty(SplitWhere(s, p))
    decreases |s|
  {
    if s != [] {
      if !p(s[0]) {
        FindAllIsSplitWhere(s[1..], p);
        NonEmptyAppend([[]], SplitWhere(s[1..], p));
      } else {
        var n := RunLength(s, p);
        var head := s[..n];
        var w := SplitWhere(s[n..], p);
        FindAllIsSplitWhere(s[n..], p);
        SplitWherePrefix(s, p, n);
        assert w[0] == [] by {
          if s[n..] != [] {
            assert s[n..][0] == s[n];
          }
        }
        assert SplitWhere(s, p) == [head] + w[1..] by {
          assert head + w[0] == head;
        }
        assert NonEmpty(w) == NonEmpty(w[1..]) by {
          assert w == [w[0]] + w[1..];
          NonEmptyAppend([w[0]], w[1..]);
        }
        assert NonEmpty([head]) == [head] by {
          assert head != [] by { assert head[0] == s[0]; }
        }
        NonEmptyAppend([head], w[1..]);
        assert FindAll(s, p) == [head] + FindAll(s[n..], p);
      }
    }
  }

  // ---------------------------------------------------------------------
  // str.lower() on ASCII letters
  // ---------------------------------------------------------------------

  /** `c.lower()` for a single character: an ASCII capital becomes its
      small letter, every other character is kept. */
  function Lower(c: char): (l: char)
    ensures !('A' <= l <= 'Z')
    ensures 'a' <= l <= 'z' ==> c == l || c == (l as int - 32) as char
  {
    if 'A' <= c <= 'Z' then (c as int + 32) as char else c
  }

  /** `s.lower()`, ASCII case mapping only. */
  function LowerStr(s: string): (r: string)
    ensures |r| == |s|
    decreases |s|
  {
    if s == [] then [] else LowerStr(s[..|s| - 1]) + [Lower(s[|s| - 1])]
  }

  /** `s.lower()` maps every character on its own. */
  lemma {:induction false} LowerStrChars(s: string)
    ensures forall i :: 0 <= i < |s| ==> LowerStr(s)[i] == Lower(s[i])
    decreases |s|
  {
    if s != [] {
      LowerStrChars(s[..|s| - 1]);
    }
  }

  /** `x in xs` for a Python list of strings: compares `x` with the items
      from the front. */
  predicate Member(x: string, xs: seq<string>)
    decreases |xs|
  {
    xs != [] && (xs[0] == x || Member(x, xs[1..]))
  }

  lemma {:induction false} MemberIff(x: string, xs: seq<string>)
    ensures Member(x, xs) <==> x in xs
    decreases |xs|
  {
    if xs != [] {
      MemberIff(x, xs[1..]);
      assert xs == [xs[0]] + xs[1..];
    }
  }

  // ---------------------------------------------------------------------
  // str(int), int(str), str.zfill(width)
  // ---------------------------------------------------------------------

  predicate IsDigit(c: char) { '0' <= c <= '9' }

  predicate IsDigits(s: string) { forall i :: 0 <= i < |s| ==> IsDigit(s[i]) }

  function DigitChar(d: nat): char
    requires d < 10
  {
    ('0' as int + d) as char
  }

  function DigitValue(c: char): nat
    requires IsDigit(c)
  {
    c as int - '0' as int
  }

  /** `str(n)` for a non-negative integer: decimal digits, no leading zero. */
  function NatToStr(n: nat): (s: string)
    ensures |s| >= 1 && IsDigits(s)
    ensures s[0] == '0' <==> n == 0
    ensures n == 0 ==> s == "0"
  {
    if n < 10 then [DigitChar(n)] else NatToStr(n / 10) + [DigitChar(n % 10)]
  }

  /** `str(i)`: a minus sign in front of the digits of a negative number. */
  function IntToStr(i: int): (s: string)
    ensures |s| >= 1
    ensures i >= 0 ==> IsDigits(s)
    ensures i < 0 ==> s[0] == '-' && s[1..] == NatToStr(-i)
  {
    if i < 0 then ['-'] + NatToStr(-i) else NatToStr(i)
  }

  /** Value of a string of decimal digits (the empty string counts as 0). */
  function DigitsValue(s: string): nat
    requires IsDigits(s)
    decreases |s|
  {
    if s == [] then 0 else DigitsValue(s[..|s| - 1]) * 10 + DigitValue(s[|s| - 1])
  }

  /** `int(s)` for a non-empty string of decimal digits. On the tokens the
      tech-check feeds it (runs of digits and '.'), `int` succeeds exactly
      on such strings and raises a ValueError on any token with a '.'. */
  function PyInt(s: string): int
    requires |s| > 0 && IsDigits(s)
  {
    DigitsValue(s)
  }

  /** `int(str(n)) == n` */
  lemma {:induction false} NatToStrRoundTrip(n: nat)
    ensures PyInt(NatToStr(n)) == n
  {
    if n >= 10 {
      NatToStrRoundTrip(n / 10);
      var s := NatToStr(n);
      assert s == NatToStr(n / 10) + [DigitChar(n % 10)];
      assert s[..|s| - 1] == NatToStr(n / 10);
      assert DigitValue(s[|s| - 1]) == n % 10;
      assert DigitsValue(s) == (n / 10) * 10 + n % 10;
    }
  }

  /** A run of '0' characters. */
  function Zeros(n: nat): (z: string)
    ensures |z| == n && forall i :: 0 <= i < n ==> z[i] == '0'
  {
    seq(n, _ => '0')
  }

  /** Leading zeros do not change the value of a digit string. */
  lemma {:induction false} ZerosDoNotCount(n: nat, s: string)
    requires IsDigits(s)
    ensures IsDigits(Zeros(n) + s)
    ensures DigitsValue(Zeros(n) + s) == DigitsValue(s)
    decreases |s|
  {
    var t := Zeros(n) + s;
    if s == [] {
      assert t == Zeros(n);
      ZerosValue(n);
    } else {
      ZerosDoNotCount(n, s[..|s| - 1]);
      assert t[..|t| - 1] == Zeros(n) + s[..|s| - 1];
    }
  }

  lemma {:induction false} ZerosValue(n: nat)
    ensures IsDigits(Zeros(n)) && DigitsValue(Zeros(n)) == 0
  {
    if n > 0 {
      ZerosValue(n - 1);
      assert Zeros(n)[..n - 1] == Zeros(n - 1);
    }
  }

  /** A digit string has a positive value exactly when it has a digit
      other than '0'. */
  lemma {:induction false} DigitsValuePositive(s: string)
    requires IsDigits(s)
    ensures DigitsValue(s) > 0 <==> NonZero(s)
    decreases |s|
  {
    if s != [] {
      var init := s[..|s| - 1];
      DigitsValuePositive(init);
      if exists i :: 0 <= i < |init| && init[i] != '0' {
        var i :| 0 <= i < |init| && init[i] != '0';
        assert s[i] != '0';
      }
      if exists i :: 0 <= i < |s| && s[i] != '0' {
        var i :| 0 <= i < |s| && s[i] != '0';
        if i < |init| {
          assert init[i] != '0';
        }
      }
    }
  }

  /** `s.zfill(width)`: pad with '0' on the left up to `width` characters,
      keeping a leading '+' or '-' in front of the padding. */
  function ZFill(s: string, width: int): (r: string)
  {
    if |s| >= width then s
    else if |s| > 0 && (s[0] == '+' || s[0] == '-') then [s[0]] + Zeros(width - |s|) + s[1..]
    else Zeros(width - |s|) + s
  }

  // ---------------------------------------------------------------------
  // String ordering, max() and min() on lists of str
  // ---------------------------------------------------------------------

  /** Python's `a < b` on str: code point by code point, a proper prefix
      first. */
  predicate LexLt(a: string, b: string)
    decreases |a|
  {
    if a == [] then b != []
    else if b == [] then false
    else if a[0] != b[0] then a[0] < b[0]
    else LexLt(a[1..], b[1..])
  }

  predicate LexLe(a: string, b: string)
  {
    a == b || LexLt(a, b)
  }

  lemma {:induction false} LexLtIrreflexive(a: string)
    ensures !LexLt(a, a)
    decreases |a|
  {
    if a != [] {
      LexLtIrreflexive(a[1..]);
    }
  }

  lemma {:induction false} LexLtTransitive(a: string, b: string, c: string)
    requires LexLt(a, b) && LexLt(b, c)
    ensures LexLt(a, c)
    decreases |a|
  {
    if a != [] && b != [] && c != [] && a[0] == b[0] && b[0] == c[0] {
      LexLtTransitive(a[1..], b[1..], c[1..]);
    }
  }

  /** Any two strings are equal or ordered one way. */
  lemma {:induction false} LexTotal(a: string, b: string)
    ensures a == b || LexLt(a, b) || LexLt(b, a)
    decreases |a|
  {
    if a != [] && b != [] && a[0] == b[0] {
      LexTotal(a[1..], b[1..]);
      if a[1..] == b[1..] {
        assert a == [a[0]] + a[1..] && b == [b[0]] + b[1..];
      }
    }
  }

  lemma {:induction false} LexLtAsymmetric(a: string, b: string)
    requires LexLt(a, b)
    ensures !LexLt(b, a)
  {
    if LexLt(b, a) {
      LexLtTransitive(a, b, a);
      LexLtIrreflexive(a);
    }
  }

  /** A greatest element under `LexLe` is unique. */
  lemma LexMaxUnique(xs: seq<string>, m1: string, m2: string)
    requires m1 in xs && forall x :: x in xs ==> LexLe(x, m1)
    requires m2 in xs && forall x :: x in xs ==> LexLe(x, m2)
    ensures m1 == m2
  {
    if m1 != m2 {
      assert LexLt(m1, m2) && LexLt(m2, m1);
      LexLtAsymmetric(m1, m2);
    }
  }

  /** A least element under `LexLe` is unique. */
  lemma LexMinUnique(xs: seq<string>, m1: string, m2: string)
    requires m1 in xs && forall x :: x in xs ==> LexLe(m1, x)
    requires m2 in xs && forall x :: x in xs ==> LexLe(m2, x)
    ensures m1 == m2
  {
    if m1 != m2 {
      assert LexLt(m1, m2) && LexLt(m2, m1);
      LexLtAsymmetric(m1, m2);
    }
  }

  /** `max(xs)` on a non-empty list of str: the running maximum, replaced
      only by a strictly greater item. */
  function MaxStr(xs: seq<string>): (m: string)
    requires |xs| > 0
    ensures m in xs
    ensures forall x :: x in xs ==> LexLe(x, m)
    decreases |xs|
  {
    if |xs| == 1 then xs[0]
    else
      var init := xs[..|xs| - 1];
      var last := xs[|xs| - 1];
      var m := MaxStr(init);
      assert xs == init + [last];
      if LexLt(m, last) then
        assert forall x :: x in init ==> LexLe(x, last) by {
          forall x | x in init ensures LexLe(x, last) {
            if x != m { LexLtTransitive(x, m, last); }
          }
        }
        last
      else
        LexTotal(m, last);
        m
  }

  /** `min(xs)` on a non-empty list of str: the running minimum, replaced
      only by a strictly smaller item. */
  function MinStr(xs: seq<string>): (m: string)
    requires |xs| > 0
    ensures m in xs
    ensures forall x :: x in xs ==> LexLe(m, x)
    decreases |xs|
  {
    if |xs| == 1 then xs[0]
    else
      var init := xs[..|xs| - 1];
      var last := xs[|xs| - 1];
      var m := MinStr(init);
      assert xs == init + [last];
      if LexLt(last, m) then
        assert forall x :: x in init ==> LexLe(last, x) by {
          forall x | x in init ensures LexLe(last, x) {
            if x != m { LexLtTransitive(last, m, x); }
          }
        }
        last
      else
        LexTotal(m, last);
        m
  }

  /** A digit string has a digit other than '0'. */
  predicate NonZero(s: string)
  {
    exists i :: 0 <= i < |s| && s[i] != '0'
  }

  /** Below a string of '0's in string order there are only strings of
      '0's, when both are digit strings. */
  lemma {:induction false} LexLeZeros(x: string, m: string)
    requires IsDigits(x) && LexLe(x, m) && !NonZero(m)
    ensures !NonZero(x)
    decreases |x|
  {
    if x != m && x != [] {
      assert m != [] && m[0] == '0';
      assert x[0] == m[0];
      assert IsDigits(x[1..]) && !NonZero(m[1..]) by {
        forall i | 0 <= i < |m[1..]| ensures m[1..][i] == '0' {
          assert m[1..][i] == m[i + 1];
        }
      }
      LexLeZeros(x[1..], m[1..]);
      forall i | 0 <= i < |x| ensures x[i] == '0' {
        if i > 0 {
          assert x[i] == x[1..][i - 1];
        }
      }
    }
  }

  /** The greatest of some digit strings, in string order, has a digit other
      than '0' exactly when one of them does. */
  lemma MaxStrNonZero(xs: seq<string>)
    requires |xs| > 0 && forall x :: x in xs ==> IsDigits(x)
    ensures NonZero(MaxStr(xs)) <==> exists x :: x in xs && NonZero(x)
  {
    var m := MaxStr(xs);
    if !NonZero(m) {
      forall x | x in xs ensures !NonZero(x) {
        LexLeZeros(x, m);
      }
    }
  }

  /** `[f(x) for x in xs]` */
  function Map<T, U>(f: T --> U, xs: seq<T>): seq<U>
    requires forall i :: 0 <= i < |xs| ==> f.requires(xs[i])
    decreases |xs|
  {
    if xs == [] then []
    else
      var n := |xs| - 1;
      assert forall i :: 0 <= i < n ==> xs[..n][i] == xs[i];
      Map(f, xs[..n]) + [f(xs[n])]
  }

  /** Element `i` of the result is `f` of element `i`. */
  lemma {:induction false} MapAt<T, U>(f: T --> U, xs: seq<T>)
    requires forall i :: 0 <= i < |xs| ==> f.requires(xs[i])
    ensures |Map(f, xs)| == |xs|
    ensures forall i :: 0 <= i < |xs| ==> Map(f, xs)[i] == f(xs[i])
    decreases |xs|
  {
    if xs != [] {
      var n := |xs| - 1;
      assert forall i :: 0 <= i < n ==> xs[..n][i] == xs[i];
      MapAt(f, xs[..n]);
    }
  }
}

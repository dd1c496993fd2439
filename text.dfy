/** Character classes and string operations shared by the cleaner, the matcher
    and the profile extractor. Every class is the ASCII part of the Python
    built-in it stands for: `str.lower`, `str.title`, `str.strip`, `str.split`,
    `in` on strings, and the regex classes `\s`, `\w` and `\d`. */
module Text {

  // ---------------------------------------------------------------------------
  // Character classes
  // ---------------------------------------------------------------------------

  predicate IsAscii(c: char) { c as int < 128 }
  predicate IsUpper(c: char) { 'A' <= c <= 'Z' }
  predicate IsLowerLetter(c: char) { 'a' <= c <= 'z' }
  predicate IsLetter(c: char) { IsUpper(c) || IsLowerLetter(c) }
  predicate IsDigit(c: char) { '0' <= c <= '9' }

  /** Python's `str.isspace` and the regex class `\s` on ASCII: tab, line feed,
      vertical tab, form feed, carriage return, the four separators 0x1C-0x1F
      and the space. */
  predicate IsSpace(c: char) {
    var n := c as int;
    n == 32 || 9 <= n <= 13 || 28 <= n <= 31
  }

  /** The regex class `\w` on ASCII. */
  predicate IsWordChar(c: char) { IsLetter(c) || IsDigit(c) || c == '_' }

  function LowerChar(c: char): (d: char)
    ensures !IsUpper(d)
    ensures IsUpper(c) ==> IsLowerLetter(d)
    ensures !IsUpper(c) ==> d == c
  {
    if IsUpper(c) then (c as int + 32) as char else c
  }

  function UpperChar(c: char): (d: char)
    ensures !IsLowerLetter(d)
    ensures IsLowerLetter(c) ==> IsUpper(d) && LowerChar(d) == c
    ensures !IsLowerLetter(c) ==> d == c
  {
    if IsLowerLetter(c) then (c as int - 32) as char else c
  }

  // ---------------------------------------------------------------------------
  // Case
  // ---------------------------------------------------------------------------

  /** `str.lower`. */
  function Lower(s: string): string {
    seq(|s|, i requires 0 <= i < |s| => LowerChar(s[i]))
  }

  predicate IsLowercase(s: string) {
    forall i :: 0 <= i < |s| ==> !IsUpper(s[i])
  }

  lemma LowerIsLowercase(s: string)
    ensures |Lower(s)| == |s| && IsLowercase(Lower(s))
  {
  }

  lemma LowerOfLowercase(s: string)
    requires IsLowercase(s)
    ensures Lower(s) == s
  {
  }

  lemma LowerIdempotent(s: string)
    ensures Lower(Lower(s)) == Lower(s)
  {
    LowerIsLowercase(s);
    LowerOfLowercase(Lower(s));
  }

  lemma LowerConcat(a: string, b: string)
    ensures Lower(a + b) == Lower(a) + Lower(b)
  {
  }

  lemma LowerSlice(s: string, i: int, j: int)
    requires 0 <= i <= j <= |s|
    ensures Lower(s[i..j]) == Lower(s)[i..j]
  {
  }

  /** `str.title` on ASCII: a letter is upper-cased when the character before
      it is not a letter (or it is the first), and lower-cased otherwise;
      everything else is kept. */
  function Title(s: string): string {
    seq(|s|, i requires 0 <= i < |s| =>
      if i > 0 && IsLetter(s[i - 1]) then LowerChar(s[i]) else UpperChar(s[i]))
  }

  lemma LowerOfTitle(s: string)
    ensures Lower(Title(s)) == Lower(s)
  {
    var t := Title(s);
    assert |t| == |s|;
    forall i | 0 <= i < |s| ensures Lower(t)[i] == Lower(s)[i] {
      var c := s[i];
      if IsLowerLetter(c) {
        assert LowerChar(UpperChar(c)) == c;
      }
    }
  }

  // ---------------------------------------------------------------------------
  // Runs, strip
  // ---------------------------------------------------------------------------

  /** The length of the longest prefix of `s` whose characters satisfy `p`. */
  function RunLength(s: string, p: char -> bool): (n: nat)
    ensures n <= |s|
    ensures forall k :: 0 <= k < n ==> p(s[k])
    ensures n < |s| ==> !p(s[n])
  {
    if s == [] || !p(s[0]) then 0 else 1 + RunLength(s[1..], p)
  }

  /** The end of the run of `p` characters that starts at `i`. */
  function RunEnd(s: string, i: nat, p: char -> bool): (j: nat)
    requires i <= |s|
    ensures i <= j <= |s|
    ensures forall k :: i <= k < j ==> p(s[k])
    ensures j < |s| ==> !p(s[j])
  {
    i + RunLength(s[i..], p)
  }

  function StripLeft(s: string): (r: string)
    ensures |r| <= |s| && r == s[|s| - |r|..]
    ensures r != [] ==> !IsSpace(r[0])
    ensures forall k :: 0 <= k < |s| - |r| ==> IsSpace(s[k])
  {
    if s != [] && IsSpace(s[0]) then
      var r := StripLeft(s[1..]);
      assert forall k :: 1 <= k < |s| ==> s[k] == s[1..][k - 1];
      assert s[1..][|s| - 1 - |r|..] == s[|s| - |r|..];
      r
    else s
  }

  function StripRight(s: string): (r: string)
    ensures |r| <= |s| && r == s[..|r|]
    ensures r != [] ==> !IsSpace(r[|r| - 1])
    ensures forall k :: |r| <= k < |s| ==> IsSpace(s[k])
  {
    if s != [] && IsSpace(s[|s| - 1]) then
      var r := StripRight(s[..|s| - 1]);
      assert forall k :: 0 <= k < |s| - 1 ==> s[k] == s[..|s| - 1][k];
      assert s[..|s| - 1][..|r|] == s[..|r|];
      r
    else s
  }

  /** `str.strip()`: the slice of `s` left after dropping the leading and the
      trailing whitespace. */
  function Strip(s: string): (r: string)
    ensures |r| <= |s|
    ensures r != [] ==> !IsSpace(r[0]) && !IsSpace(r[|r| - 1])
  {
    StripRight(StripLeft(s))
  }

  /** Where the strip cuts: everything before `i` and from `j` on is
      whitespace. */
  lemma StripBounds(s: string) returns (i: nat, j: nat)
    ensures i <= j <= |s| && Strip(s) == s[i..j]
    ensures forall k :: 0 <= k < i ==> IsSpace(s[..i][k])
    ensures forall k :: 0 <= k < |s| - j ==> IsSpace(s[j..][k])
  {
    var l := StripLeft(s);
    var r := StripRight(l);
    i := |s| - |l|;
    j := i + |r|;
    LeftBound(s);
    RightBound(l);
    assert Strip(s) == r;
    SliceCompose(s, l, r, i);
  }

  /** A prefix of a suffix is a middle slice. */
  lemma SliceCompose<T>(s: seq<T>, l: seq<T>, r: seq<T>, i: nat)
    requires i <= |s| && l == s[i..] && |r| <= |l| && r == l[..|r|]
    ensures s[i..i + |r|] == r && s[i + |r|..] == l[|r|..]
  {
  }

  lemma LeftBound(s: string)
    ensures var i := |s| - |StripLeft(s)|;
      StripLeft(s) == s[i..] && forall k :: 0 <= k < i ==> IsSpace(s[..i][k])
  {
  }

  lemma RightBound(l: string)
    ensures var r := StripRight(l);
      r == l[..|r|] && forall k :: 0 <= k < |l| - |r| ==> IsSpace(l[|r|..][k])
  {
  }

  /** A string with no whitespace at either end is its own strip. */
  lemma StripUnspaced(s: string)
    requires s == [] || (!IsSpace(s[0]) && !IsSpace(s[|s| - 1]))
    ensures Strip(s) == s
  {
  }

  lemma StripLeftLower(s: string)
    ensures StripLeft(Lower(s)) == Lower(StripLeft(s))
  {
    var l := Lower(s);
    if s != [] {
      assert l[0] == LowerChar(s[0]) && (IsSpace(l[0]) <==> IsSpace(s[0]));
      if IsSpace(s[0]) {
        assert l[1..] == Lower(s[1..]);
        StripLeftLower(s[1..]);
        assert StripLeft(l) == StripLeft(l[1..]);
        assert StripLeft(s) == StripLeft(s[1..]);
      } else {
        assert StripLeft(l) == l && StripLeft(s) == s;
      }
    }
  }

  lemma StripRightLower(s: string)
    ensures StripRight(Lower(s)) == Lower(StripRight(s))
  {
    if s != [] && IsSpace(s[|s| - 1]) {
      assert Lower(s)[..|s| - 1] == Lower(s[..|s| - 1]);
      StripRightLower(s[..|s| - 1]);
    }
  }

  /** Stripping and lower-casing commute, since no whitespace character has case. */
  lemma StripLower(s: string)
    ensures Strip(Lower(s)) == Lower(Strip(s))
  {
    StripLeftLower(s);
    StripRightLower(StripLeft(s));
  }

  // ---------------------------------------------------------------------------
  // Split and join
  // ---------------------------------------------------------------------------

  /** `s.split(sep)` for a one-character separator: the pieces between the
      separators, empty pieces included; always at least one piece. */
  function Split(s: string, sep: char): (parts: seq<string>)
    ensures |parts| >= 1
    ensures forall p :: p in parts ==> sep !in p
  {
    if s == [] then [[]]
    else
      var rest := Split(s[1..], sep);
      if s[0] == sep then [[]] + rest else [[s[0]] + rest[0]] + rest[1..]
  }

  /** `sep.join(parts)`. */
  function Join(parts: seq<string>, sep: char): string
    requires |parts| >= 1
  {
    if |parts| == 1 then parts[0] else parts[0] + [sep] + Join(parts[1..], sep)
  }

  /** Joining the pieces of a split gives the string back. */
  lemma {:induction false} JoinSplit(s: string, sep: char)
    ensures Join(Split(s, sep), sep) == s
  {
    if s != [] {
      var rest := Split(s[1..], sep);
      JoinSplit(s[1..], sep);
      if s[0] != sep {
        if |rest| == 1 {
        } else {
          assert Join([[s[0]] + rest[0]] + rest[1..], sep)
              == [s[0]] + rest[0] + [sep] + Join(rest[1..], sep);
        }
      }
    }
  }

  /** Splitting a join of separator-free pieces gives the pieces back. */
  lemma {:induction false} SplitJoin(parts: seq<string>, sep: char)
    requires |parts| >= 1
    requires forall p :: p in parts ==> sep !in p
    ensures Split(Join(parts, sep), sep) == parts
  {
    if |parts| == 1 {
      SplitNoSep(parts[0], sep);
    } else {
      SplitJoin(parts[1..], sep);
      SplitPrefix(parts[0], Join(parts[1..], sep), sep);
      assert Join(parts, sep) == parts[0] + ([sep] + Join(parts[1..], sep));
    }
  }

  lemma {:induction false} SplitNoSep(s: string, sep: char)
    requires sep !in s
    ensures Split(s, sep) == [s]
  {
    if s != [] {
      SplitNoSep(s[1..], sep);
      assert s[0] != sep;
      assert [s[0]] + s[1..] == s;
    }
  }

  lemma {:induction false} SplitPrefix(a: string, b: string, sep: char)
    requires sep !in a
    ensures Split(a + [sep] + b, sep) == [a] + Split(b, sep)
  {
    if a == [] {
      assert a + [sep] + b == [sep] + b;
      assert ([sep] + b)[1..] == b;
    } else {
      assert (a + [sep] + b)[1..] == a[1..] + [sep] + b;
      SplitPrefix(a[1..], b, sep);
      assert [a[0]] + a[1..] == a;
    }
  }

  function LowerAll(xs: seq<string>): (ys: seq<string>)
    ensures |ys| == |xs|
    ensures forall i :: 0 <= i < |xs| ==> ys[i] == Lower(xs[i])
  {
    if xs == [] then [] else [Lower(xs[0])] + LowerAll(xs[1..])
  }

  /** Lower-casing before or after splitting on a non-letter gives the same pieces. */
  lemma {:induction false} SplitLower(s: string, sep: char)
    requires !IsLetter(sep)
    ensures Split(Lower(s), sep) == LowerAll(Split(s, sep))
  {
    if s != [] {
      assert Lower(s)[1..] == Lower(s[1..]);
      SplitLower(s[1..], sep);
      var rest := Split(s[1..], sep);
      if s[0] != sep {
        assert Lower([s[0]] + rest[0]) == [LowerChar(s[0])] + Lower(rest[0]);
        assert LowerChar(s[0]) != sep;
      }
    }
  }

  // ---------------------------------------------------------------------------
  // Substrings, prefixes, words, numerals
  // ---------------------------------------------------------------------------

  predicate OccursAt(s: string, sub: string, i: nat) {
    i + |sub| <= |s| && s[i..i + |sub|] == sub
  }

  /** Python's `sub in s`. */
  predicate Contains(s: string, sub: string) {
    exists i | 0 <= i <= |s| :: OccursAt(s, sub, i)
  }

  predicate StartsWith(s: string, prefix: string) {
    |prefix| <= |s| && s[..|prefix|] == prefix
  }

  /** `re.findall(r"\w+", s)`: the maximal runs of word characters, in order. */
  function Words(s: string): (ws: seq<string>)
    ensures forall w :: w in ws ==> w != [] && forall k :: 0 <= k < |w| ==> IsWordChar(w[k])
  {
    Runs_Members(s, IsWordChar);
    Runs(s, IsWordChar)
  }

  // ---------------------------------------------------------------------------
  // Maximal runs
  // ---------------------------------------------------------------------------

  /** The maximal runs of characters satisfying `p`, in order. */
  function Runs(s: string, p: char -> bool): seq<string>
    decreases |s|
  {
    if s == [] then []
    else if !p(s[0]) then Runs(s[1..], p)
    else
      var n := RunLength(s, p);
      [s[..n]] + Runs(s[n..], p)
  }

  /** Every run is non-empty and lies inside the class. */
  lemma {:induction false} Runs_Members(s: string, p: char -> bool)
    ensures forall w :: w in Runs(s, p) ==> w != [] && forall k :: 0 <= k < |w| ==> p(w[k])
    decreases |s|
  {
    if s != [] {
      if !p(s[0]) {
        Runs_Members(s[1..], p);
      } else {
        Runs_Members(s[RunLength(s, p)..], p);
      }
    }
  }

  predicate StartsIn(s: string, p: char -> bool) {
    s != [] && p(s[0])
  }

  /** The three properties of `RunLength` determine it. */
  lemma RunLengthUnique(s: string, p: char -> bool, m: nat)
    requires m <= |s|
    requires forall k :: 0 <= k < m ==> p(s[k])
    requires m < |s| ==> !p(s[m])
    ensures RunLength(s, p) == m
  {
  }

  lemma {:induction false} Runs_EmptyIff(s: string, p: char -> bool)
    ensures Runs(s, p) == [] <==> forall k :: 0 <= k < |s| ==> !p(s[k])
    decreases |s|
  {
    if s != [] && !p(s[0]) {
      Runs_EmptyIff(s[1..], p);
      assert forall k :: 1 <= k < |s| ==> s[k] == s[1..][k - 1];
    }
  }

  /** Characters outside the class in front do not change the runs. */
  lemma {:induction false} Runs_SkipFront(x: string, b: string, p: char -> bool)
    requires forall k :: 0 <= k < |x| ==> !p(x[k])
    ensures Runs(x + b, p) == Runs(b, p)
    decreases |x|
  {
    if x == [] {
      assert x + b == b;
    } else {
      assert (x + b)[1..] == x[1..] + b;
      Runs_SkipFront(x[1..], b, p);
    }
  }

  /** A character outside the class separates the runs on its two sides. */
  lemma {:induction false} Runs_Split(a: string, c: char, b: string, p: char -> bool)
    requires !p(c)
    ensures Runs(a + [c] + b, p) == Runs(a, p) + Runs(b, p)
    decreases |a|
  {
    var t := a + [c] + b;
    if a == [] {
      assert t == [c] + b && t[1..] == b;
      assert Runs(t, p) == Runs(b, p);
    } else if !p(a[0]) {
      assert t[0] == a[0] && t[1..] == a[1..] + [c] + b;
      Runs_Split(a[1..], c, b, p);
      assert Runs(t, p) == Runs(a[1..] + [c] + b, p);
      assert Runs(a, p) == Runs(a[1..], p);
    } else {
      var m := RunLength(a, p);
      RunSplitPrefix(a, c, b, p);
      Runs_Split(a[m..], c, b, p);
      assert Runs(t, p) == [a[..m]] + Runs(a[m..] + [c] + b, p);
      assert Runs(a, p) == [a[..m]] + Runs(a[m..], p);
    }
  }

  /** A leading run of `a` ends before the separator that follows `a`. */
  lemma RunSplitPrefix(a: string, c: char, b: string, p: char -> bool)
    requires !p(c) && StartsIn(a, p)
    ensures var t, m := a + [c] + b, RunLength(a, p);
      && StartsIn(t, p) && RunLength(t, p) == m
      && t[..m] == a[..m] && t[m..] == a[m..] + [c] + b
  {
    var t, m := a + [c] + b, RunLength(a, p);
    assert forall k :: 0 <= k < m ==> t[k] == a[k];
    assert t[m] == if m < |a| then a[m] else c;
    RunLengthUnique(t, p, m);
    assert t[..m] == a[..m];
    assert t[m..] == a[m..] + [c] + b;
  }

  /** Characters outside the class at the end do not change the runs. */
  lemma Runs_SkipBack(a: string, x: string, p: char -> bool)
    requires forall k :: 0 <= k < |x| ==> !p(x[k])
    ensures Runs(a + x, p) == Runs(a, p)
  {
    if x == [] {
      assert a + x == a;
    } else {
      assert a + x == a + [x[0]] + x[1..];
      Runs_Split(a, x[0], x[1..], p);
      Runs_EmptyIff(x[1..], p);
    }
  }

  /** A character of the class in front joins the first run when the rest
      starts with one, and forms a run of its own otherwise. */
  lemma Runs_ConsIn(c: char, x: string, p: char -> bool)
    requires p(c)
    ensures Runs([c] + x, p) ==
      if StartsIn(x, p) then [[c] + Runs(x, p)[0]] + Runs(x, p)[1..] else [[c]] + Runs(x, p)
  {
    var t := [c] + x;
    assert t[0] == c && t[1..] == x;
    if StartsIn(x, p) {
      var m := RunLength(x, p);
      assert forall k :: 1 <= k < m + 1 ==> t[k] == x[k - 1];
      RunLengthUnique(t, p, m + 1);
      assert t[..m + 1] == [c] + x[..m];
      assert t[m + 1..] == x[m..];
      assert Runs(t, p) == [t[..m + 1]] + Runs(t[m + 1..], p);
      assert Runs(x, p) == [x[..m]] + Runs(x[m..], p);
    } else {
      RunLengthUnique(t, p, 1);
      assert Runs(t, p) == [t[..1]] + Runs(t[1..], p);
    }
  }

  /** Two strings with the same runs, both or neither starting inside the
      class, still have the same runs with one character put in front. */
  lemma Runs_Cons(c: char, x: string, y: string, p: char -> bool)
    requires Runs(x, p) == Runs(y, p) && StartsIn(x, p) == StartsIn(y, p)
    ensures Runs([c] + x, p) == Runs([c] + y, p)
    ensures StartsIn([c] + x, p) == StartsIn([c] + y, p)
  {
    if p(c) {
      Runs_ConsIn(c, x, p);
      Runs_ConsIn(c, y, p);
    } else {
      assert ([c] + x)[1..] == x && ([c] + y)[1..] == y;
    }
  }

  /** Lower-casing the string lower-cases each run, when case does not
      decide membership in the class. */
  lemma {:induction false} Runs_Lower(s: string, p: char -> bool)
    requires forall c :: p(LowerChar(c)) == p(c)
    ensures Runs(Lower(s), p) == LowerAll(Runs(s, p))
    decreases |s|
  {
    var l := Lower(s);
    if s != [] {
      assert l[0] == LowerChar(s[0]);
      if !p(s[0]) {
        assert l[1..] == Lower(s[1..]);
        Runs_Lower(s[1..], p);
      } else {
        var n := RunLength(s, p);
        assert forall k :: 0 <= k < |s| ==> l[k] == LowerChar(s[k]);
        RunLengthUnique(l, p, n);
        assert l[..n] == Lower(s[..n]);
        assert l[n..] == Lower(s[n..]);
        Runs_Lower(s[n..], p);
        assert LowerAll([s[..n]] + Runs(s[n..], p)) == [Lower(s[..n])] + LowerAll(Runs(s[n..], p));
      }
    }
  }

  /** `s` starts and ends inside the class, and its other characters are
      single separators. */
  predicate Separated(s: string, p: char -> bool, sep: char) {
    && s != [] && p(s[0]) && p(s[|s| - 1])
    && (forall k :: 0 <= k < |s| && !p(s[k]) ==> s[k] == sep)
    && (forall k :: 0 <= k < |s| - 1 ==> p(s[k]) || p(s[k + 1]))
  }

  /** Such a string is its runs joined by the separator. */
  lemma {:induction false} Runs_Join(s: string, p: char -> bool, sep: char)
    requires Separated(s, p, sep)
    ensures Runs(s, p) != [] && Join(Runs(s, p), sep) == s
    decreases |s|
  {
    var n := RunLength(s, p);
    if n == |s| {
      assert s[..n] == s && s[n..] == [];
      assert Runs(s, p) == [s];
    } else {
      var rest := s[n + 1..];
      SeparatedRest(s, p, sep);
      RunsPastSeparator(s, p);
      SplitAt(s, n);
      Runs_Join(rest, p, sep);
      var parts := Runs(s, p);
      assert |parts| > 1 && parts[0] == s[..n] && parts[1..] == Runs(rest, p);
      assert Join(parts, sep) == s[..n] + [sep] + Join(Runs(rest, p), sep);
    }
  }

  /** Past the first run of a separated string come one separator and a
      separated string. */
  lemma SeparatedRest(s: string, p: char -> bool, sep: char)
    requires Separated(s, p, sep) && RunLength(s, p) < |s|
    ensures var n := RunLength(s, p);
      n + 1 < |s| && s[n] == sep && Separated(s[n + 1..], p, sep)
  {
    var n := RunLength(s, p);
    assert n + 1 < |s| && s[n] == sep && p(s[n + 1]);
    var rest := s[n + 1..];
    forall k | 0 <= k < |rest| && !p(rest[k]) ensures rest[k] == sep {
      assert rest[k] == s[n + 1 + k];
    }
    forall k | 0 <= k < |rest| - 1 ensures p(rest[k]) || p(rest[k + 1]) {
      assert rest[k] == s[n + 1 + k] && rest[k + 1] == s[n + 1 + k + 1];
    }
    assert rest[0] == s[n + 1] && rest[|rest| - 1] == s[|s| - 1];
  }

  /** When the first run is followed by one character outside the class, the
      runs are that run and the runs after the character. */
  lemma RunsPastSeparator(s: string, p: char -> bool)
    requires StartsIn(s, p) && RunLength(s, p) + 1 < |s|
    ensures var n := RunLength(s, p);
      Runs(s, p) == [s[..n]] + Runs(s[n + 1..], p)
  {
    var n := RunLength(s, p);
    RunsFront(s, p);
    RunsSkipOne(s[n..], p);
    assert s[n..][1..] == s[n + 1..];
  }

  /** A sequence cut around its `n`-th element. */
  lemma SplitAt<T>(s: seq<T>, n: nat)
    requires n < |s|
    ensures s == s[..n] + [s[n]] + s[n + 1..]
  {
  }

  lemma RunsFront(s: string, p: char -> bool)
    requires StartsIn(s, p)
    ensures var n := RunLength(s, p); Runs(s, p) == [s[..n]] + Runs(s[n..], p)
  {
  }

  lemma RunsSkipOne(t: string, p: char -> bool)
    requires t != [] && !p(t[0])
    ensures Runs(t, p) == Runs(t[1..], p)
  {
  }

  /** The value of a string of decimal digits (`int(s)` on such a string). */
  function DigitsValue(s: string): nat
    requires AllDigits(s)
  {
    if s == [] then 0
    else DigitsValue(s[..|s| - 1]) * 10 + (s[|s| - 1] as int - '0' as int)
  }

  predicate AllDigits(s: string) {
    forall k :: 0 <= k < |s| ==> IsDigit(s[k])
  }
}

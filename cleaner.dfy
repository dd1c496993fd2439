/** The text cleaner: it turns the raw text of a résumé into one flat,
    single-spaced, lower-case line of ASCII text, or reports that nothing is
    left to work on. */
module Cleaner {
  import opened Text
  import opened Wrappers

  /** The two `ValueError`s of the cleaner. */
  datatype CleanError = EmptyInput | EmptyAfterCleaning

  // ---------------------------------------------------------------------------
  // The five steps
  // ---------------------------------------------------------------------------

  /** `s.replace("\r\n", " ")`: each carriage-return/line-feed pair, taken
      left to right without overlap, becomes one space. */
  function ReplaceCrLf(s: string): string
    decreases |s|
  {
    if s == [] then []
    else if |s| >= 2 && s[0] == '\r' && s[1] == '\n' then " " + ReplaceCrLf(s[2..])
    else [s[0]] + ReplaceCrLf(s[1..])
  }

  /** `s.replace(from, to)` for single characters. */
  function ReplaceChar(s: string, from: char, to: char): string {
    seq(|s|, i requires 0 <= i < |s| => if s[i] == from then to else s[i])
  }

  /** Step 1: flatten the line breaks. */
  function FlattenLineBreaks(s: string): string {
    ReplaceChar(ReplaceChar(ReplaceCrLf(s), '\r', ' '), '\n', ' ')
  }

  predicate IsNonAscii(c: char) { !IsAscii(c) }

  /** `re.sub(P + "+", " ", s)` for a character class P: every maximal run of
      characters in the class becomes a single space. */
  function ReplaceRuns(s: string, p: char -> bool): string
    decreases |s|
  {
    if s == [] then []
    else if p(s[0]) then
      var n := RunLength(s, p);
      assert n >= 1;
      " " + ReplaceRuns(s[n..], p)
    else [s[0]] + ReplaceRuns(s[1..], p)
  }

  /** Steps 1 to 5 without the emptiness checks: flatten line breaks, turn
      each non-ASCII run into a space, collapse whitespace runs to one space,
      strip the ends, lower-case. */
  function Normalize(s: string): string {
    Lower(Strip(ReplaceRuns(ReplaceRuns(FlattenLineBreaks(s), IsNonAscii), IsSpace)))
  }

  /** `clean_text`; `None` stands for Python's `None`. */
  function CleanText(raw: Option<string>): Result<string, CleanError> {
    if raw.None? || raw.value == [] then Failure(EmptyInput)
    else
      var text := Normalize(raw.value);
      if text == [] then Failure(EmptyAfterCleaning) else Success(text)
  }

  // ---------------------------------------------------------------------------
  // What a cleaned text looks like
  // ---------------------------------------------------------------------------

  predicate AllAscii(s: string) { forall i :: 0 <= i < |s| ==> IsAscii(s[i]) }

  /** The only whitespace left is the plain space, never two in a row. */
  predicate SingleSpaced(s: string) {
    && (forall i :: 0 <= i < |s| ==> IsSpace(s[i]) ==> s[i] == ' ')
    && (forall i :: 0 <= i < |s| - 1 ==> !(s[i] == ' ' && s[i + 1] == ' '))
  }

  predicate Trimmed(s: string) {
    s != [] ==> !IsSpace(s[0]) && !IsSpace(s[|s| - 1])
  }

  predicate IsClean(s: string) {
    s != [] && AllAscii(s) && SingleSpaced(s) && Trimmed(s) && IsLowercase(s)
  }

  /** The characters the cleaner keeps (ASCII, not whitespace), in order. */
  predicate Kept(c: char) { IsAscii(c) && !IsSpace(c) }

  function KeptChars(s: string): string {
    if s == [] then [] else (if Kept(s[0]) then [s[0]] else []) + KeptChars(s[1..])
  }

  // ---------------------------------------------------------------------------
  // Properties of the steps
  // ---------------------------------------------------------------------------

  lemma {:induction false} KeptChars_Append(a: string, b: string)
    ensures KeptChars(a + b) == KeptChars(a) + KeptChars(b)
  {
    if a == [] {
      assert a + b == b;
    } else {
      var h := if Kept(a[0]) then [a[0]] else [];
      assert (a + b)[0] == a[0] && (a + b)[1..] == a[1..] + b;
      assert KeptChars(a + b) == h + KeptChars(a[1..] + b);
      KeptChars_Append(a[1..], b);
      assert KeptChars(a) == h + KeptChars(a[1..]);
    }
  }

  lemma {:induction false} KeptChars_NoneKept(s: string)
    requires forall i :: 0 <= i < |s| ==> !Kept(s[i])
    ensures KeptChars(s) == []
  {
    if s != [] {
      KeptChars_NoneKept(s[1..]);
    }
  }

  lemma {:induction false} KeptChars_EmptyIff(s: string)
    ensures KeptChars(s) == [] <==> forall i :: 0 <= i < |s| ==> !Kept(s[i])
  {
    if s != [] {
      KeptChars_EmptyIff(s[1..]);
      if Kept(s[0]) {
      } else {
        assert forall i :: 1 <= i < |s| ==> s[i] == s[1..][i - 1];
      }
    }
  }

  lemma {:induction false} KeptChars_ReplaceCrLf(s: string)
    ensures KeptChars(ReplaceCrLf(s)) == KeptChars(s)
    decreases |s|
  {
    if s == [] {
    } else if |s| >= 2 && s[0] == '\r' && s[1] == '\n' {
      KeptChars_ReplaceCrLf(s[2..]);
      assert s[1..][1..] == s[2..];
    } else {
      KeptChars_ReplaceCrLf(s[1..]);
    }
  }

  lemma {:induction false} KeptChars_ReplaceChar(s: string, from: char, to: char)
    requires !Kept(from) && !Kept(to)
    ensures KeptChars(ReplaceChar(s, from, to)) == KeptChars(s)
  {
    if s != [] {
      assert ReplaceChar(s, from, to)[1..] == ReplaceChar(s[1..], from, to);
      KeptChars_ReplaceChar(s[1..], from, to);
    }
  }

  lemma {:induction false} KeptChars_ReplaceRuns(s: string, p: char -> bool)
    requires forall c :: p(c) ==> !Kept(c)
    ensures KeptChars(ReplaceRuns(s, p)) == KeptChars(s)
    decreases |s|
  {
    if s == [] {
    } else if p(s[0]) {
      var n := RunLength(s, p);
      KeptChars_ReplaceRuns(s[n..], p);
      assert s == s[..n] + s[n..];
      KeptChars_Append(s[..n], s[n..]);
      KeptChars_NoneKept(s[..n]);
      assert " " + ReplaceRuns(s[n..], p) == [' '] + ReplaceRuns(s[n..], p);
    } else {
      KeptChars_ReplaceRuns(s[1..], p);
    }
  }

  lemma KeptChars_Strip(s: string)
    ensures KeptChars(Strip(s)) == KeptChars(s)
  {
    var i, j := StripBounds(s);
    assert s == s[..i] + s[i..j] + s[j..];
    KeptChars_Append(s[..i] + s[i..j], s[j..]);
    KeptChars_Append(s[..i], s[i..j]);
    KeptChars_NoneKept(s[..i]);
    KeptChars_NoneKept(s[j..]);
  }

  lemma {:induction false} KeptChars_Lower(s: string)
    ensures KeptChars(Lower(s)) == Lower(KeptChars(s))
  {
    if s != [] {
      assert Lower(s)[1..] == Lower(s[1..]);
      KeptChars_Lower(s[1..]);
      LowerConcat(if Kept(s[0]) then [s[0]] else [], KeptChars(s[1..]));
    }
  }

  /** The chain loses exactly the non-ASCII and whitespace characters and
      lower-cases the rest, keeping their order. */
  lemma KeptChars_Normalize(s: string)
    ensures KeptChars(Normalize(s)) == Lower(KeptChars(s))
  {
    var t0 := ReplaceCrLf(s);
    var t1 := FlattenLineBreaks(s);
    var t2 := ReplaceRuns(t1, IsNonAscii);
    var t3 := ReplaceRuns(t2, IsSpace);
    KeptChars_ReplaceCrLf(s);
    KeptChars_ReplaceChar(t0, '\r', ' ');
    KeptChars_ReplaceChar(ReplaceChar(t0, '\r', ' '), '\n', ' ');
    KeptChars_ReplaceRuns(t1, IsNonAscii);
    KeptChars_ReplaceRuns(t2, IsSpace);
    KeptChars_Strip(t3);
    KeptChars_Lower(Strip(t3));
  }

  /** Every character of a run replacement is a space or lies outside the class,
      and a property the input and the space share carries over. */
  lemma {:induction false} ReplaceRuns_Chars(s: string, p: char -> bool, q: char -> bool)
    requires q(' ')
    requires forall i :: 0 <= i < |s| ==> q(s[i])
    ensures forall i :: 0 <= i < |ReplaceRuns(s, p)| ==>
      var c := ReplaceRuns(s, p)[i]; q(c) && (c == ' ' || !p(c))
    decreases |s|
  {
    if s != [] {
      if p(s[0]) {
        var n := RunLength(s, p);
        ReplaceRuns_Chars(s[n..], p, q);
      } else {
        ReplaceRuns_Chars(s[1..], p, q);
      }
    }
  }

  /** A run replacement that starts with a character outside the class starts
      with that character. */
  lemma ReplaceRuns_Head(s: string, p: char -> bool)
    requires s != [] && !p(s[0])
    ensures ReplaceRuns(s, p) != [] && ReplaceRuns(s, p)[0] == s[0]
  {
  }

  /** Collapsing whitespace leaves only single plain spaces. */
  lemma {:induction false} ReplaceRuns_SingleSpaced(s: string)
    ensures SingleSpaced(ReplaceRuns(s, IsSpace))
    decreases |s|
  {
    ReplaceRuns_Chars(s, IsSpace, c => true);
    if s != [] {
      var r := ReplaceRuns(s, IsSpace);
      if IsSpace(s[0]) {
        var n := RunLength(s, IsSpace);
        var rest := ReplaceRuns(s[n..], IsSpace);
        ReplaceRuns_SingleSpaced(s[n..]);
        if s[n..] != [] {
          ReplaceRuns_Head(s[n..], IsSpace);
        }
        assert r == [' '] + rest;
      } else {
        ReplaceRuns_SingleSpaced(s[1..]);
        assert r == [s[0]] + ReplaceRuns(s[1..], IsSpace);
      }
    }
  }

  lemma SliceKeeps(s: string, i: int, j: int)
    requires 0 <= i <= j <= |s|
    requires AllAscii(s) && SingleSpaced(s)
    ensures AllAscii(s[i..j]) && SingleSpaced(s[i..j])
  {
    var t := s[i..j];
    forall k | 0 <= k < |t| - 1 ensures !(t[k] == ' ' && t[k + 1] == ' ') {
      assert t[k] == s[i + k] && t[k + 1] == s[i + k + 1];
    }
  }

  lemma LowerKeeps(s: string)
    requires AllAscii(s) && SingleSpaced(s) && Trimmed(s)
    ensures AllAscii(Lower(s)) && SingleSpaced(Lower(s)) && Trimmed(Lower(s))
    ensures IsLowercase(Lower(s))
  {
    LowerIsLowercase(s);
  }

  /** A successful clean is ASCII, single-spaced, trimmed and lower-case. */
  lemma CleanText_IsClean(raw: Option<string>)
    requires CleanText(raw).Success?
    ensures IsClean(CleanText(raw).value)
  {
    var s := raw.value;
    var t2 := ReplaceRuns(FlattenLineBreaks(s), IsNonAscii);
    var t3 := ReplaceRuns(t2, IsSpace);
    ReplaceRuns_Chars(FlattenLineBreaks(s), IsNonAscii, c => true);
    ReplaceRuns_Chars(t2, IsSpace, IsAscii);
    ReplaceRuns_SingleSpaced(t2);
    var i, j := StripBounds(t3);
    SliceKeeps(t3, i, j);
    LowerKeeps(Strip(t3));
  }

  /** Cleaning fails on empty input, and on input whose every character is
      whitespace or non-ASCII; it succeeds on everything else. */
  lemma CleanText_Errors(raw: Option<string>)
    ensures CleanText(raw) == Failure(EmptyInput) <==> raw.None? || raw.value == []
    ensures CleanText(raw) == Failure(EmptyAfterCleaning) <==>
      raw.Some? && raw.value != [] && forall i :: 0 <= i < |raw.value| ==> !Kept(raw.value[i])
  {
    if raw.Some? && raw.value != [] {
      var s := raw.value;
      var n := Normalize(s);
      KeptChars_Normalize(s);
      KeptChars_EmptyIff(s);
      KeptChars_EmptyIff(n);
      if n != [] {
        // a non-empty result has a first character that is not whitespace
        CleanText_IsClean(raw);
        assert Kept(n[0]);
      }
    }
  }

  /** The output keeps the input's ASCII non-space characters, lower-cased and
      in their original order. */
  lemma CleanText_KeepsCharacters(raw: Option<string>)
    requires CleanText(raw).Success?
    ensures KeptChars(CleanText(raw).value) == Lower(KeptChars(raw.value))
  {
    assert CleanText(raw).value == Normalize(raw.value);
    KeptChars_Normalize(raw.value);
  }

  // ---------------------------------------------------------------------------
  // Already-clean text is a fixed point
  // ---------------------------------------------------------------------------

  lemma {:induction false} ReplaceCrLf_NoBreaks(s: string)
    requires '\r' !in s
    ensures ReplaceCrLf(s) == s
  {
    if s != [] {
      ReplaceCrLf_NoBreaks(s[1..]);
      assert [s[0]] + s[1..] == s;
    }
  }

  lemma {:induction false} ReplaceRuns_NoRuns(s: string, p: char -> bool)
    requires forall i :: 0 <= i < |s| && p(s[i]) ==> s[i] == ' ' && (i + 1 < |s| ==> !p(s[i + 1]))
    ensures ReplaceRuns(s, p) == s
    decreases |s|
  {
    if s != [] {
      if p(s[0]) {
        assert s[1..] == [] || !p(s[1..][0]);
        assert RunLength(s[1..], p) == 0;
        var n := RunLength(s, p);
        assert n == 1;
        ReplaceRuns_NoRuns(s[1..], p);
        assert s == " " + s[1..];
      } else {
        ReplaceRuns_NoRuns(s[1..], p);
        assert [s[0]] + s[1..] == s;
      }
    }
  }

  lemma StripTrimmed(s: string)
    requires Trimmed(s)
    ensures Strip(s) == s
  {
  }

  lemma Normalize_Clean(s: string)
    requires IsClean(s)
    ensures Normalize(s) == s
  {
    assert '\r' !in s && '\n' !in s;
    ReplaceCrLf_NoBreaks(s);
    assert ReplaceChar(s, '\r', ' ') == s;
    assert ReplaceChar(s, '\n', ' ') == s;
    ReplaceRuns_NoRuns(s, IsNonAscii);
    ReplaceRuns_NoRuns(s, IsSpace);
    StripTrimmed(s);
    LowerOfLowercase(s);
  }

  /** Already-clean text comes back unchanged. */
  lemma CleanText_FixedPoint(s: string)
    requires IsClean(s)
    ensures CleanText(Some(s)) == Success(s)
  {
    Normalize_Clean(s);
  }

  /** Cleaning twice is cleaning once. */
  lemma CleanText_Idempotent(raw: Option<string>)
    requires CleanText(raw).Success?
    ensures CleanText(Some(CleanText(raw).value)) == CleanText(raw)
  {
    CleanText_IsClean(raw);
    CleanText_FixedPoint(CleanText(raw).value);
  }

  /** A cleaned text has no line feed, carriage return or tab. */
  lemma CleanText_NoBreaks(raw: Option<string>)
    requires CleanText(raw).Success?
    ensures var t := CleanText(raw).value; '\n' !in t && '\r' !in t && '\t' !in t
  {
    CleanText_IsClean(raw);
  }

  // ---------------------------------------------------------------------------
  // Where the spaces go: the words of the text
  // ---------------------------------------------------------------------------

  /** The words the cleaner sees: the maximal runs of ASCII non-whitespace
      characters, in order. */
  function KeptRuns(s: string): seq<string> {
    Runs(s, Kept)
  }

  /** `x` and `y` have the same words and both or neither start inside one. */
  predicate SameRuns(x: string, y: string) {
    Runs(x, Kept) == Runs(y, Kept) && StartsIn(x, Kept) == StartsIn(y, Kept)
  }

  lemma {:induction false} KeptRuns_ReplaceCrLf(s: string)
    ensures SameRuns(ReplaceCrLf(s), s)
    decreases |s|
  {
    if s == [] {
    } else if |s| >= 2 && s[0] == '\r' && s[1] == '\n' {
      var r := ReplaceCrLf(s[2..]);
      KeptRuns_ReplaceCrLf(s[2..]);
      assert ReplaceCrLf(s) == [' '] + r;
      Runs_SkipFront([' '], r, Kept);
      assert s == ['\r', '\n'] + s[2..];
      Runs_SkipFront(['\r', '\n'], s[2..], Kept);
    } else {
      KeptRuns_ReplaceCrLf(s[1..]);
      Runs_Cons(s[0], ReplaceCrLf(s[1..]), s[1..], Kept);
      assert s == [s[0]] + s[1..];
    }
  }

  lemma {:induction false} KeptRuns_ReplaceChar(s: string, from: char, to: char)
    requires !Kept(from) && !Kept(to)
    ensures SameRuns(ReplaceChar(s, from, to), s)
  {
    if s != [] {
      var r := ReplaceChar(s[1..], from, to);
      KeptRuns_ReplaceChar(s[1..], from, to);
      assert ReplaceChar(s, from, to) == [ReplaceChar(s, from, to)[0]] + r;
      assert s == [s[0]] + s[1..];
      if s[0] == from {
        Runs_SkipFront([to], r, Kept);
        Runs_SkipFront([from], s[1..], Kept);
      } else {
        Runs_Cons(s[0], r, s[1..], Kept);
      }
    }
  }

  lemma {:induction false} KeptRuns_ReplaceRuns(s: string, p: char -> bool)
    requires forall c :: p(c) ==> !Kept(c)
    ensures SameRuns(ReplaceRuns(s, p), s)
    decreases |s|
  {
    if s == [] {
    } else if p(s[0]) {
      var n := RunLength(s, p);
      var r := ReplaceRuns(s[n..], p);
      KeptRuns_ReplaceRuns(s[n..], p);
      assert ReplaceRuns(s, p) == [' '] + r;
      Runs_SkipFront([' '], r, Kept);
      assert s == s[..n] + s[n..];
      Runs_SkipFront(s[..n], s[n..], Kept);
    } else {
      KeptRuns_ReplaceRuns(s[1..], p);
      Runs_Cons(s[0], ReplaceRuns(s[1..], p), s[1..], Kept);
      assert s == [s[0]] + s[1..];
    }
  }

  lemma KeptRuns_Strip(s: string)
    ensures KeptRuns(Strip(s)) == KeptRuns(s)
  {
    var i, j := StripBounds(s);
    assert s == s[..i] + (s[i..j] + s[j..]);
    Runs_SkipFront(s[..i], s[i..j] + s[j..], Kept);
    Runs_SkipBack(s[i..j], s[j..], Kept);
  }

  /** The five steps keep the words and lower-case them. */
  lemma KeptRuns_Normalize(s: string)
    ensures KeptRuns(Normalize(s)) == LowerAll(KeptRuns(s))
  {
    var t0 := ReplaceCrLf(s);
    var t1 := FlattenLineBreaks(s);
    var t2 := ReplaceRuns(t1, IsNonAscii);
    var t3 := ReplaceRuns(t2, IsSpace);
    assert KeptRuns(t1) == KeptRuns(s) by {
      KeptRuns_ReplaceCrLf(s);
      KeptRuns_ReplaceChar(t0, '\r', ' ');
      KeptRuns_ReplaceChar(ReplaceChar(t0, '\r', ' '), '\n', ' ');
    }
    assert KeptRuns(t3) == KeptRuns(t1) by {
      KeptRuns_ReplaceRuns(t1, IsNonAscii);
      KeptRuns_ReplaceRuns(t2, IsSpace);
    }
    KeptRuns_Strip(t3);
    KeptLower();
    Runs_Lower(Strip(t3), Kept);
  }

  /** Case does not decide whether a character is kept. */
  lemma KeptLower()
    ensures forall c :: Kept(LowerChar(c)) == Kept(c)
  {
  }

  /** A clean text is its words with one space between each two. */
  lemma Clean_JoinRuns(t: string)
    requires IsClean(t)
    ensures KeptRuns(t) != [] && Join(KeptRuns(t), ' ') == t
  {
    forall k | 0 <= k < |t| - 1 ensures Kept(t[k]) || Kept(t[k + 1]) {
      assert !(t[k] == ' ' && t[k + 1] == ' ');
    }
    assert Separated(t, Kept, ' ');
    Runs_Join(t, Kept, ' ');
  }

  /** Cleaning keeps the words of the text, lower-cased and in order, and
      puts exactly one space between each two; it fails exactly when there
      is no word. */
  lemma CleanText_Words(s: string)
    ensures CleanText(Some(s)).Success? <==> KeptRuns(s) != []
    ensures KeptRuns(s) != [] ==> CleanText(Some(s)) == Success(Join(LowerAll(KeptRuns(s)), ' '))
  {
    CleanText_Errors(Some(s));
    Runs_EmptyIff(s, Kept);
    if CleanText(Some(s)).Success? {
      CleanText_IsClean(Some(s));
      Clean_JoinRuns(Normalize(s));
      KeptRuns_Normalize(s);
    }
  }

  /** A string of kept characters only is a single word. */
  lemma OneRun(a: string)
    requires a != [] && forall k :: 0 <= k < |a| ==> Kept(a[k])
    ensures KeptRuns(a) == [a]
  {
    RunLengthUnique(a, Kept, |a|);
    assert a[..|a|] == a && a[|a|..] == [];
    assert Runs(a, Kept) == [a[..|a|]] + Runs(a[|a|..], Kept);
  }

  /** Two words with any whitespace or non-ASCII noise between them come out
      lower-cased with a single space between them, as in
      "Hello World  Python" becoming "hello world python". */
  lemma CleanText_TwoWords(a: string, gap: string, b: string)
    requires a != [] && forall k :: 0 <= k < |a| ==> Kept(a[k])
    requires b != [] && forall k :: 0 <= k < |b| ==> Kept(b[k])
    requires gap != [] && forall k :: 0 <= k < |gap| ==> !Kept(gap[k])
    ensures CleanText(Some(a + gap + b)) == Success(Lower(a) + " " + Lower(b))
  {
    var s := a + gap + b;
    assert s == a + [gap[0]] + (gap[1..] + b);
    Runs_Split(a, gap[0], gap[1..] + b, Kept);
    Runs_SkipFront(gap[1..], b, Kept);
    OneRun(a);
    OneRun(b);
    assert KeptRuns(s) == [a, b];
    CleanText_Words(s);
    assert LowerAll([a, b]) == [Lower(a), Lower(b)];
  }
}

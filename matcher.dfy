/** The three factors of the résumé-to-job score (skills, role, experience),
    their weighted combination into a percentage, the label bands, and the
    matched and missing skill lists shown with each result. */
module Matcher {
  import opened Text
  import opened Numeric
  import opened Seqs
  import opened Wrappers

  function Clamp01(x: real): real {
    if x < 0.0 then 0.0 else if x > 1.0 then 1.0 else x
  }

  /** `{x.lower() for x in xs}`. */
  function LowerSet(xs: seq<string>): (r: set<string>)
    ensures forall x :: x in xs ==> Lower(x) in r
  {
    LowerSetMembers(xs);
    Elements(LowerAll(xs))
  }

  /** Every element of the set is the lower case of an entry. */
  lemma LowerSetSource(xs: seq<string>, y: string)
    requires y in LowerSet(xs)
    ensures exists x :: x in xs && Lower(x) == y
  {
    LowerSetMembers(xs);
  }

  lemma LowerSetMembers(xs: seq<string>)
    ensures forall x :: x in xs ==> Lower(x) in Elements(LowerAll(xs))
    ensures forall y :: y in Elements(LowerAll(xs)) ==> exists x :: x in xs && Lower(x) == y
  {
    forall x | x in xs ensures Lower(x) in Elements(LowerAll(xs)) {
      var i :| 0 <= i < |xs| && xs[i] == x;
      assert LowerAll(xs)[i] == Lower(x);
    }
    forall y | y in Elements(LowerAll(xs)) ensures exists x :: x in xs && Lower(x) == y {
      var i :| 0 <= i < |xs| && LowerAll(xs)[i] == y;
      assert xs[i] in xs;
    }
  }

  /** The set has as many elements as the list exactly when no two entries
      of the list are equal up to case. */
  lemma LowerSetSize(xs: seq<string>)
    ensures |LowerSet(xs)| <= |xs|
    ensures |LowerSet(xs)| == |xs| <==> NoDuplicates(LowerAll(xs))
  {
    ElementsSize(LowerAll(xs));
  }

  /** The share `m / n` of a count of at most `n`. */
  lemma Share(m: nat, n: nat)
    requires 0 < n && m <= n
    ensures 0.0 <= m as real / n as real <= 1.0
    ensures (m as real / n as real) * n as real == m as real
    ensures m as real / n as real == 1.0 <==> m == n
    ensures m as real / n as real == 0.0 <==> m == 0
  {
    var q := m as real / n as real;
    assert q * n as real == m as real;
  }

  lemma SubsetSize<T>(a: set<T>, b: set<T>)
    requires a <= b
    ensures |a| <= |b|
    ensures |a| == |b| ==> a == b
  {
    assert b == a + (b - a);
    assert |b| == |a| + |b - a|;
  }

  // ===========================================================================
  // Factor 1: skills (weight 50%)
  // ===========================================================================

  /** The stripped, non-blank pieces of a list of pieces. */
  function NonBlank(parts: seq<string>): (ts: seq<string>)
    ensures |ts| <= |parts|
    ensures forall t :: t in ts ==> t != []
  {
    if parts == [] then []
    else (if Strip(parts[0]) != [] then [Strip(parts[0])] else []) + NonBlank(parts[1..])
  }

  /** `[t.strip() for t in job_function.split(",") if t.strip()]`: the
      stripped comma-separated pieces, blanks dropped. */
  function SkillTokens(jobFunction: string): (ts: seq<string>)
    ensures forall t :: t in ts ==> t != [] && ',' !in t
    ensures jobFunction == [] ==> ts == []
  {
    var parts := Split(jobFunction, ',');
    NonBlankPieces(parts);
    if jobFunction == [] then
      assert parts == [[]];
      assert Strip([]) == [];
      NonBlank(parts)
    else NonBlank(parts)
  }

  lemma {:induction false} NonBlankPieces(parts: seq<string>)
    ensures forall t :: t in NonBlank(parts) ==> exists p :: p in parts && t == Strip(p)
  {
    if parts != [] {
      NonBlankPieces(parts[1..]);
      forall t | t in NonBlank(parts) ensures exists p :: p in parts && t == Strip(p) {
        if t !in NonBlank(parts[1..]) {
          assert t == Strip(parts[0]);
        } else {
          var p :| p in parts[1..] && t == Strip(p);
          assert p in parts;
        }
      }
    }
  }

  /** `calculate_skill_score`: the number of distinct lower-cased job tokens
      that are lower-cased skills, over the number of tokens; 0 when either
      side is empty. */
  function SkillScore(skills: seq<string>, jobFunction: string): (r: real)
    ensures 0.0 <= r <= 1.0
    ensures skills == [] || SkillTokens(jobFunction) == [] ==> r == 0.0
  {
    if skills == [] || jobFunction == [] then 0.0
    else
      var tokens := SkillTokens(jobFunction);
      if tokens == [] then 0.0
      else
        var matchCount := |LowerSet(tokens) * LowerSet(skills)|;
        Clamp01(matchCount as real / |tokens| as real)
  }

  /** The clamp never cuts: the share of matched tokens is already at most 1,
      and the score times the token count is the matched count. */
  lemma SkillScore_Ratio(skills: seq<string>, jobFunction: string)
    requires skills != [] && SkillTokens(jobFunction) != []
    ensures var tokens := SkillTokens(jobFunction);
      var m := |LowerSet(tokens) * LowerSet(skills)|;
      && m <= |tokens|
      && SkillScore(skills, jobFunction) == m as real / |tokens| as real
  {
    var tokens := SkillTokens(jobFunction);
    var m := |LowerSet(tokens) * LowerSet(skills)|;
    LowerSetSize(tokens);
    SubsetSize(LowerSet(tokens) * LowerSet(skills), LowerSet(tokens));
    Share(m, |tokens|);
  }

  /** An empty `job_function` scores 0 whoever the candidate is. */
  lemma SkillScore_EmptyJobFunction(skills: seq<string>)
    ensures SkillScore(skills, []) == 0.0
  {
  }

  /** `get_matched_skills`: the candidate's skills, in their order and
      casing, whose lower-case form is a lower-cased job token; a skill
      listed twice is matched twice. */
  function MatchedSkills(skills: seq<string>, jobFunction: string): (r: seq<string>)
    ensures IsSubsequence(r, skills)
    ensures forall s :: s in r <==> s in skills && Lower(s) in LowerSet(SkillTokens(jobFunction))
    ensures forall s ::
      multiset(r)[s] == if Lower(s) in LowerSet(SkillTokens(jobFunction)) then multiset(skills)[s] else 0
  {
    var tokensLower := LowerSet(SkillTokens(jobFunction));
    var r := Filter(skills, s => Lower(s) in tokensLower);
    FilterIsSubsequence(skills, s => Lower(s) in tokensLower);
    forall s ensures s in r <==> s in skills && Lower(s) in tokensLower {
      FilterMembership(skills, s => Lower(s) in tokensLower, s);
    }
    forall s ensures multiset(r)[s] == if Lower(s) in tokensLower then multiset(skills)[s] else 0 {
      FilterCount(skills, s => Lower(s) in tokensLower, s);
    }
    r
  }

  /** `get_missing_skills`: the job tokens, in order, whose lower-case form
      is not a lower-cased skill; a token listed twice is missing twice. */
  function MissingSkills(skills: seq<string>, jobFunction: string): (r: seq<string>)
    ensures IsSubsequence(r, SkillTokens(jobFunction))
    ensures forall t :: t in r <==> t in SkillTokens(jobFunction) && Lower(t) !in LowerSet(skills)
    ensures r == [] <==> forall t :: t in SkillTokens(jobFunction) ==> Lower(t) in LowerSet(skills)
    ensures forall t ::
      multiset(r)[t] == if Lower(t) !in LowerSet(skills) then multiset(SkillTokens(jobFunction))[t] else 0
  {
    var tokens := SkillTokens(jobFunction);
    var skillsLower := LowerSet(skills);
    var r := Filter(tokens, t => Lower(t) !in skillsLower);
    FilterIsSubsequence(tokens, t => Lower(t) !in skillsLower);
    forall t ensures t in r <==> t in tokens && Lower(t) !in skillsLower {
      FilterMembership(tokens, t => Lower(t) !in skillsLower, t);
    }
    forall t ensures multiset(r)[t] == if Lower(t) !in skillsLower then multiset(tokens)[t] else 0 {
      FilterCount(tokens, t => Lower(t) !in skillsLower, t);
    }
    FilterEmptyIff(tokens, t => Lower(t) !in skillsLower);
    r
  }

  /** Every job token is either missing or matched, up to case, by one of
      the matched skills. */
  lemma TokensMatchedOrMissing(skills: seq<string>, jobFunction: string, t: string)
    requires t in SkillTokens(jobFunction)
    ensures t in MissingSkills(skills, jobFunction)
      || exists s :: s in MatchedSkills(skills, jobFunction) && Lower(s) == Lower(t)
  {
    if t !in MissingSkills(skills, jobFunction) {
      var s :| s in skills && Lower(s) == Lower(t);
      assert Lower(s) in LowerSet(SkillTokens(jobFunction));
    }
  }

  /** The skill score is exactly 1 when there are skills, no job token is
      missing and no two tokens are equal up to case (the denominator counts
      tokens, so a repeated token is never fully covered). */
  lemma SkillScore_FullIff(skills: seq<string>, jobFunction: string)
    ensures SkillScore(skills, jobFunction) == 1.0 <==>
      && skills != []
      && SkillTokens(jobFunction) != []
      && MissingSkills(skills, jobFunction) == []
      && NoDuplicates(LowerAll(SkillTokens(jobFunction)))
  {
    var tokens := SkillTokens(jobFunction);
    if skills != [] && tokens != [] {
      var tl, sl := LowerSet(tokens), LowerSet(skills);
      var m := |tl * sl|;
      SkillScore_Ratio(skills, jobFunction);
      Share(m, |tokens|);
      LowerSetSize(tokens);
      SubsetSize(tl * sl, tl);
      if m == |tokens| {
        assert tl * sl == tl;
        forall t | t in tokens ensures Lower(t) in sl {
          assert Lower(t) in tl;
        }
      }
      if MissingSkills(skills, jobFunction) == [] && NoDuplicates(LowerAll(tokens)) {
        forall y | y in tl ensures y in sl {
          LowerSetSource(tokens, y);
          var x :| x in tokens && Lower(x) == y;
        }
        assert tl * sl == tl;
      }
    }
  }

  /** A repeated token is counted twice below the line and once above it:
      a candidate with the one skill `a` scores only 0.5 against a job
      function listing it twice, as in "Python,python". */
  lemma SkillScore_RepeatedToken(a: string, b: string)
    requires a != [] && b != [] && ',' !in a && ',' !in b
    requires !IsSpace(a[0]) && !IsSpace(a[|a| - 1]) && !IsSpace(b[0]) && !IsSpace(b[|b| - 1])
    requires Lower(a) == Lower(b)
    ensures SkillScore([a], a + [','] + b) == 0.5
  {
    var l := Lower(a);
    assert LowerAll([a, b]) == [l, l];
    assert LowerAll([a]) == [l];
    assert LowerSet([a, b]) == {l} by { assert Elements([l, l]) == {l}; }
    assert LowerSet([a]) == {l} by { assert Elements([l]) == {l}; }
    var jobFunction := a + [','] + b;
    TwoTokens(a, b);
    assert LowerSet(SkillTokens(jobFunction)) * LowerSet([a]) == {l};
    SkillScore_Ratio([a], jobFunction);
    assert SkillScore([a], jobFunction) == 1.0 / 2.0;
  }

  lemma TwoTokens(a: string, b: string)
    requires a != [] && b != [] && ',' !in a && ',' !in b
    requires !IsSpace(a[0]) && !IsSpace(a[|a| - 1]) && !IsSpace(b[0]) && !IsSpace(b[|b| - 1])
    ensures SkillTokens(a + [','] + b) == [a, b]
  {
    SplitPrefix(a, b, ',');
    SplitNoSep(b, ',');
    StripUnspaced(a);
    StripUnspaced(b);
    assert Split(a + [','] + b, ',') == [a, b];
    assert NonBlank([b]) == [b];
    assert NonBlank([a, b]) == [a] + NonBlank([a, b][1..]);
    assert [a, b][1..] == [b];
  }

  lemma {:induction false} NonBlankLower(parts: seq<string>)
    ensures NonBlank(LowerAll(parts)) == LowerAll(NonBlank(parts))
  {
    if parts != [] {
      NonBlankLower(parts[1..]);
      StripLower(parts[0]);
      assert LowerAll(parts)[1..] == LowerAll(parts[1..]);
      var p := parts[0];
      var rest := NonBlank(parts[1..]);
      if Strip(p) != [] {
        assert LowerAll([Strip(p)] + rest) == [Lower(Strip(p))] + LowerAll(rest);
      } else {
        assert LowerAll(NonBlank(parts)) == LowerAll(rest);
      }
    }
  }

  lemma LowerSetLowerAll(xs: seq<string>)
    ensures LowerSet(LowerAll(xs)) == LowerSet(xs)
  {
    forall x | x in LowerSet(xs) ensures x in LowerSet(LowerAll(xs)) {
      var k :| 0 <= k < |xs| && Lower(xs[k]) == x;
      LowerIdempotent(xs[k]);
      assert LowerAll(xs)[k] in LowerAll(xs);
    }
    forall x | x in LowerSet(LowerAll(xs)) ensures x in LowerSet(xs) {
      var k :| 0 <= k < |xs| && Lower(LowerAll(xs)[k]) == x;
      LowerIdempotent(xs[k]);
    }
  }

  /** Comparisons ignore case: lower-casing the skills and the job function
      beforehand changes no skill score. */
  lemma SkillScore_CaseInsensitive(skills: seq<string>, jobFunction: string)
    ensures SkillScore(LowerAll(skills), Lower(jobFunction)) == SkillScore(skills, jobFunction)
  {
    SplitLower(jobFunction, ',');
    NonBlankLower(Split(jobFunction, ','));
    var tokens := SkillTokens(jobFunction);
    assert SkillTokens(Lower(jobFunction)) == LowerAll(tokens);
    LowerSetLowerAll(tokens);
    LowerSetLowerAll(skills);
    assert Lower(jobFunction) == [] <==> jobFunction == [];
  }

  // ===========================================================================
  // Factor 2: role (weight 30%)
  // ===========================================================================

  const StopWords: set<string> := {"and", "or", "the", "a", "an", "of", "in", "at", "for"}

  /** `_tokenise_role`: the words of the lower-cased text, stop words dropped. */
  function RoleWords(text: string): (ws: seq<string>)
    ensures forall w :: w in ws ==> w != [] && w !in StopWords
  {
    Filter(Words(Lower(text)), w => w !in StopWords)
  }

  /** How many of `ws`, counted with repetition, lie in `pool`. */
  function CountIn(ws: seq<string>, pool: set<string>): (n: nat)
    ensures n <= |ws|
    ensures n == |ws| <==> forall w :: w in ws ==> w in pool
    ensures n == 0 <==> forall w :: w in ws ==> w !in pool
  {
    if ws == [] then 0
    else
      var rest := CountIn(ws[1..], pool);
      assert forall w :: w in ws <==> w == ws[0] || w in ws[1..];
      (if ws[0] in pool then 1 else 0) + rest
  }

  /** `calculate_role_score`: the share of the candidate's role words (with
      repetition) that occur among the job title's words; 0 when the role is
      missing or has no words, or the title is empty. */
  function RoleScore(parsedRole: Option<string>, jobTitle: string): (r: real)
    ensures 0.0 <= r <= 1.0
    ensures parsedRole.None? ==> r == 0.0
  {
    if parsedRole.None? || parsedRole.value == [] || jobTitle == [] then 0.0
    else
      var parsedWords := RoleWords(parsedRole.value);
      var titleWords := Elements(RoleWords(jobTitle));
      if parsedWords == [] then 0.0
      else
        var matchCount := CountIn(parsedWords, titleWords);
        Clamp01(matchCount as real / |parsedWords| as real)
  }

  /** An empty role scores 0 whatever the job title. */
  lemma RoleScore_EmptyRole(jobTitle: string)
    ensures RoleScore(Some([]), jobTitle) == 0.0
  {
  }

  lemma RoleWordsEmpty()
    ensures RoleWords([]) == []
  {
    assert Lower([]) == [];
  }

  /** The clamp never cuts, and an empty title scores like a title without
      matching words: the score is always the share of role words found. */
  lemma RoleScore_Ratio(role: string, jobTitle: string)
    requires RoleWords(role) != []
    ensures var ws := RoleWords(role);
      RoleScore(Some(role), jobTitle) == CountIn(ws, Elements(RoleWords(jobTitle))) as real / |ws| as real
  {
    var ws := RoleWords(role);
    var pool := Elements(RoleWords(jobTitle));
    var m := CountIn(ws, pool);
    Share(m, |ws|);
    assert role != [] by { RoleWordsEmpty(); }
    if jobTitle == [] {
      RoleWordsEmpty();
      assert pool == {};
      assert m == 0;
    } else {
      assert RoleScore(Some(role), jobTitle) == Clamp01(m as real / |ws| as real);
    }
  }

  /** The role score is 1 exactly when the role has words and every one of
      them is a word of the title. */
  lemma RoleScore_FullIff(parsedRole: Option<string>, jobTitle: string)
    ensures RoleScore(parsedRole, jobTitle) == 1.0 <==>
      && parsedRole.Some? && RoleWords(parsedRole.value) != []
      && forall w :: w in RoleWords(parsedRole.value) ==> w in RoleWords(jobTitle)
  {
    if parsedRole.Some? && RoleWords(parsedRole.value) != [] {
      var ws := RoleWords(parsedRole.value);
      RoleScore_Ratio(parsedRole.value, jobTitle);
      Share(CountIn(ws, Elements(RoleWords(jobTitle))), |ws|);
    }
  }

  /** The role score is 0 exactly when there is no role or none of its words
      is a word of the title. */
  lemma RoleScore_ZeroIff(parsedRole: Option<string>, jobTitle: string)
    ensures RoleScore(parsedRole, jobTitle) == 0.0 <==>
      || parsedRole.None?
      || forall w :: w in RoleWords(parsedRole.value) ==> w !in RoleWords(jobTitle)
  {
    if parsedRole.Some? && RoleWords(parsedRole.value) != [] {
      var ws := RoleWords(parsedRole.value);
      RoleScore_Ratio(parsedRole.value, jobTitle);
      Share(CountIn(ws, Elements(RoleWords(jobTitle))), |ws|);
    }
  }

  /** Lower-casing the candidate's role or the job title changes no role score. */
  lemma RoleScore_CaseInsensitive(parsedRole: string, jobTitle: string)
    ensures RoleScore(Some(Lower(parsedRole)), Lower(jobTitle)) == RoleScore(Some(parsedRole), jobTitle)
  {
    LowerIdempotent(parsedRole);
    LowerIdempotent(jobTitle);
    assert Lower(parsedRole) == [] <==> parsedRole == [];
    assert Lower(jobTitle) == [] <==> jobTitle == [];
  }

  // ===========================================================================
  // Factor 3: experience (weight 20%)
  // ===========================================================================

  /** What the job's experience text asks for: a range ("2-4 years"), a
      minimum ("3+ years"), a fresher keyword, or nothing recognisable. */
  datatype ExpRule = Range(lo: nat, hi: nat) | Min(minimum: nat) | Fresher | Unparseable

  const FresherKeywords: set<string> := {"fresher", "entry level", "entry-level", "0 years", "0-1"}

  /** The en dash, the second range separator `_RANGE_RE` accepts. */
  const EnDash: char := '–'

  /** The match of `(\d+)\s*[-–]\s*(\d+)` that starts at position `p`, if any.
      Each `\d+` and `\s*` takes its whole run: giving any of it back leaves a
      digit or a space where the next part of the pattern cannot match. The
      optional `\s*(?:years?|yrs?)?` tail never decides a match. */
  function RangeAt(t: string, p: nat): Option<ExpRule>
    requires p <= |t|
  {
    if p == |t| || !IsDigit(t[p]) then None
    else
      var j := RunEnd(t, p, IsDigit);
      var k := RunEnd(t, j, IsSpace);
      if k < |t| && (t[k] == '-' || t[k] == EnDash) then
        var l := RunEnd(t, k + 1, IsSpace);
        if l < |t| && IsDigit(t[l]) then
          var m := RunEnd(t, l, IsDigit);
          Some(Range(DigitsValue(t[p..j]), DigitsValue(t[l..m])))
        else None
      else None
  }

  /** `_RANGE_RE.search(t)` from position `p` on: the leftmost match. */
  function FindRange(t: string, p: nat): Option<ExpRule>
    requires p <= |t|
    decreases |t| - p
  {
    if p == |t| then None
    else if RangeAt(t, p).Some? then RangeAt(t, p)
    else FindRange(t, p + 1)
  }

  /** The match of `(\d+)\+\s*(?:years?|yrs?)` that starts at `p`, if any. */
  function MinAt(t: string, p: nat): Option<ExpRule>
    requires p <= |t|
  {
    if p == |t| || !IsDigit(t[p]) then None
    else
      var j := RunEnd(t, p, IsDigit);
      if j < |t| && t[j] == '+' then
        var k := RunEnd(t, j + 1, IsSpace);
        if StartsWith(t[k..], "year") || StartsWith(t[k..], "yr") then
          Some(Min(DigitsValue(t[p..j])))
        else None
      else None
  }

  /** `_MIN_RE.search(t)` from position `p` on. */
  function FindMin(t: string, p: nat): Option<ExpRule>
    requires p <= |t|
    decreases |t| - p
  {
    if p == |t| then None
    else if MinAt(t, p).Some? then MinAt(t, p)
    else FindMin(t, p + 1)
  }

  predicate HasFresherKeyword(t: string) {
    exists kw | kw in FresherKeywords :: Contains(t, kw)
  }

  /** The rule of `_parse_experience_text`, tried in order A, B, C, D on the
      stripped, lower-cased text. */
  function ClassifyExperience(jobExperience: string): (rule: ExpRule)
    ensures var t := Lower(Strip(jobExperience));
      && (rule.Range? <==> FindRange(t, 0).Some?)
      && (rule.Min? <==> FindRange(t, 0).None? && FindMin(t, 0).Some?)
      && (rule.Fresher? <==> FindRange(t, 0).None? && FindMin(t, 0).None? && HasFresherKeyword(t))
  {
    var t := Lower(Strip(jobExperience));
    match FindRange(t, 0)
    case Some(r) =>
      FindRangeIsRange(t, 0);
      r
    case None =>
      match FindMin(t, 0)
      case Some(m) =>
        FindMinIsMin(t, 0);
        m
      case None =>
        if HasFresherKeyword(t) then Fresher else Unparseable
  }

  lemma {:induction false} FindRangeIsRange(t: string, p: nat)
    requires p <= |t|
    ensures FindRange(t, p).Some? ==> FindRange(t, p).value.Range?
    decreases |t| - p
  {
    if p < |t| && RangeAt(t, p).None? {
      FindRangeIsRange(t, p + 1);
    }
  }

  lemma {:induction false} FindMinIsMin(t: string, p: nat)
    requires p <= |t|
    ensures FindMin(t, p).Some? ==> FindMin(t, p).value.Min?
    decreases |t| - p
  {
    if p < |t| && MinAt(t, p).None? {
      FindMinIsMin(t, p + 1);
    }
  }

  /** The search finds nothing exactly when no position starts a match, and
      what it finds is the match at the leftmost position that starts one. */
  lemma {:induction false} FindRange_Leftmost(t: string, p: nat)
    requires p <= |t|
    ensures FindRange(t, p).None? <==> forall q :: p <= q <= |t| ==> RangeAt(t, q).None?
    ensures FindRange(t, p).Some? ==>
      exists q ::
        && p <= q < |t|
        && FindRange(t, p) == RangeAt(t, q)
        && forall q' :: p <= q' < q ==> RangeAt(t, q').None?
    decreases |t| - p
  {
    if p < |t| && RangeAt(t, p).None? {
      FindRange_Leftmost(t, p + 1);
      if FindRange(t, p).Some? {
        var q :| p + 1 <= q < |t| && FindRange(t, p + 1) == RangeAt(t, q)
          && forall q' :: p + 1 <= q' < q ==> RangeAt(t, q').None?;
        assert forall q' :: p <= q' < q ==> RangeAt(t, q').None?;
      }
    }
  }

  lemma {:induction false} FindMin_Leftmost(t: string, p: nat)
    requires p <= |t|
    ensures FindMin(t, p).None? <==> forall q :: p <= q <= |t| ==> MinAt(t, q).None?
    ensures FindMin(t, p).Some? ==>
      exists q ::
        && p <= q < |t|
        && FindMin(t, p) == MinAt(t, q)
        && forall q' :: p <= q' < q ==> MinAt(t, q').None?
    decreases |t| - p
  {
    if p < |t| && MinAt(t, p).None? {
      FindMin_Leftmost(t, p + 1);
      if FindMin(t, p).Some? {
        var q :| p + 1 <= q < |t| && FindMin(t, p + 1) == MinAt(t, q)
          && forall q' :: p + 1 <= q' < q ==> MinAt(t, q').None?;
        assert forall q' :: p <= q' < q ==> MinAt(t, q').None?;
      }
    }
  }

  /** The text is unparseable exactly when it holds no range, no minimum and
      no fresher keyword anywhere. */
  lemma Classify_UnparseableIff(jobExperience: string)
    ensures var t := Lower(Strip(jobExperience));
      ClassifyExperience(jobExperience) == Unparseable <==>
        && (forall q :: 0 <= q <= |t| ==> RangeAt(t, q).None?)
        && (forall q :: 0 <= q <= |t| ==> MinAt(t, q).None?)
        && !HasFresherKeyword(t)
  {
    var t := Lower(Strip(jobExperience));
    FindRange_Leftmost(t, 0);
    FindMin_Leftmost(t, 0);
  }

  /** The keyword "0-1" never decides anything: any text holding it is read
      as a range first. */
  lemma Classify_ZeroToOneIsRange(jobExperience: string)
    requires Contains(Lower(Strip(jobExperience)), "0-1")
    ensures ClassifyExperience(jobExperience).Range?
  {
    var t := Lower(Strip(jobExperience));
    var i :| 0 <= i <= |t| && OccursAt(t, "0-1", i);
    assert t[i..i + 3] == "0-1";
    assert t[i] == '0' && t[i + 1] == '-' && t[i + 2] == '1' by {
      assert t[i] == t[i..i + 3][0];
      assert t[i + 1] == t[i..i + 3][1];
      assert t[i + 2] == t[i..i + 3][2];
    }
    RangeAtDigitDashDigit(t, i);
    FindRange_Leftmost(t, 0);
  }

  /** A digit, a hyphen and a digit start a range match. */
  lemma RangeAtDigitDashDigit(t: string, i: nat)
    requires i + 3 <= |t|
    requires IsDigit(t[i]) && t[i + 1] == '-' && IsDigit(t[i + 2])
    ensures RangeAt(t, i).Some?
  {
    var j := RunEnd(t, i, IsDigit);
    assert j == i + 1;
    var k := RunEnd(t, j, IsSpace);
    assert k == i + 1;
    var l := RunEnd(t, k + 1, IsSpace);
    assert l == i + 2;
  }

  /** "2-4 years" is the range 2 to 4. */
  lemma Classify_RangeExample()
    ensures ClassifyExperience("2-4 years") == Range(2, 4)
  {
    var t := "2-4 years";
    StripUnspaced(t);
    LowerOfLowercase(t);
    TwoToFourAt();
    assert FindRange(t, 0) == RangeAt(t, 0);
  }

  lemma TwoToFourAt()
    ensures RangeAt("2-4 years", 0) == Some(Range(2, 4))
  {
    var t := "2-4 years";
    assert t[0] == '2' && t[1] == '-' && t[2] == '4' && t[3] == ' ';
    SingleDigitRangeAt(t);
  }

  /** A digit, a hyphen, a digit and then no digit: the range between the two. */
  lemma SingleDigitRangeAt(t: string)
    requires |t| >= 4 && IsDigit(t[0]) && t[1] == '-' && IsDigit(t[2]) && !IsDigit(t[3])
    ensures RangeAt(t, 0) == Some(Range(t[0] as int - '0' as int, t[2] as int - '0' as int))
  {
    assert RunEnd(t, 0, IsDigit) == 1;
    assert RunEnd(t, 1, IsSpace) == 1;
    assert RunEnd(t, 2, IsSpace) == 2;
    assert RunEnd(t, 2, IsDigit) == 3;
    var a, b := t[0..1], t[2..3];
    assert a[..0] == [] && b[..0] == [];
    assert DigitsValue(a) == t[0] as int - '0' as int;
    assert DigitsValue(b) == t[2] as int - '0' as int;
  }

  /** "5+ years" is the minimum 5. */
  lemma Classify_MinExample()
    ensures ClassifyExperience("5+ years") == Min(5)
  {
    var t := "5+ years";
    StripUnspaced(t);
    LowerOfLowercase(t);
    FivePlusAt();
    assert FindMin(t, 0) == MinAt(t, 0);
  }

  lemma FivePlusAt()
    ensures FindRange("5+ years", 0).None?
    ensures MinAt("5+ years", 0) == Some(Min(5))
  {
    FivePlusNoRange();
    FivePlusMinAt();
  }

  lemma FivePlusNoRange()
    ensures FindRange("5+ years", 0).None?
  {
    var t := "5+ years";
    assert IsDigit(t[0]) && t[1] == '+';
    assert forall q :: 1 <= q < |t| ==> !IsDigit(t[q]);
    NoRangeAfterDigits(t, 1);
  }

  /** A text whose digits all come first, followed by neither a space nor
      a dash, has no range. */
  lemma NoRangeAfterDigits(t: string, n: nat)
    requires 0 < n < |t|
    requires forall q :: 0 <= q < n ==> IsDigit(t[q])
    requires forall q :: n <= q < |t| ==> !IsDigit(t[q])
    requires !IsSpace(t[n]) && t[n] != '-' && t[n] != EnDash
    ensures FindRange(t, 0).None?
  {
    forall q | 0 <= q <= |t| ensures RangeAt(t, q).None? {
      if q < n {
        assert RunEnd(t, q, IsDigit) == n;
        assert RunEnd(t, n, IsSpace) == n;
      }
    }
    FindRange_Leftmost(t, 0);
  }

  lemma FivePlusMinAt()
    ensures MinAt("5+ years", 0) == Some(Min(5))
  {
    var t := "5+ years";
    assert RunEnd(t, 0, IsDigit) == 1;
    assert RunEnd(t, 2, IsSpace) == 3;
    assert t[3..][..4] == "year";
    assert t[0..1] == "5";
    assert DigitsValue("5") == 5;
  }

  /** "10 years" holds the fresher keyword "0 years" and neither a range
      nor a minimum, so it counts as a fresher posting. */
  lemma Classify_TenYearsIsFresher()
    ensures ClassifyExperience("10 years") == Fresher
  {
    var t := "10 years";
    StripUnspaced(t);
    LowerOfLowercase(t);
    NoRangeOrMinInTenYears();
    assert OccursAt(t, "0 years", 1);
    assert Contains(t, "0 years");
  }

  lemma NoRangeOrMinInTenYears()
    ensures FindRange("10 years", 0).None? && FindMin("10 years", 0).None?
  {
    NoRangeInTenYears();
    NoMinInTenYears();
  }

  lemma NoRangeInTenYears()
    ensures FindRange("10 years", 0).None?
  {
    var t := "10 years";
    assert IsDigit(t[0]) && IsDigit(t[1]) && t[2] == ' ' && t[3] == 'y';
    assert forall q :: 2 <= q < |t| ==> !IsDigit(t[q]);
    NoRangeAfterDigitsAndSpace(t, 2);
  }

  /** A text made of digits, one space and then no digit, dash or space
      right after it, has no range. */
  lemma NoRangeAfterDigitsAndSpace(t: string, n: nat)
    requires 0 < n && n + 1 < |t|
    requires forall q :: 0 <= q < n ==> IsDigit(t[q])
    requires forall q :: n <= q < |t| ==> !IsDigit(t[q])
    requires t[n] == ' ' && !IsSpace(t[n + 1]) && t[n + 1] != '-' && t[n + 1] != EnDash
    ensures FindRange(t, 0).None?
  {
    forall q | 0 <= q <= |t| ensures RangeAt(t, q).None? {
      if q < n {
        assert RunEnd(t, q, IsDigit) == n;
        assert RunEnd(t, n, IsSpace) == n + 1;
      }
    }
    FindRange_Leftmost(t, 0);
  }

  lemma NoMinInTenYears()
    ensures FindMin("10 years", 0).None?
  {
    var t := "10 years";
    assert RunEnd(t, 0, IsDigit) == 2;
    assert RunEnd(t, 1, IsDigit) == 2;
    forall q | 0 <= q <= |t| ensures MinAt(t, q).None? {
      if 2 <= q < |t| {
        assert !IsDigit(t[q]);
      }
    }
    FindMin_Leftmost(t, 0);
  }

  /** `max(0, 1 - distance * rate)`. */
  function Decay(distance: int, rate: real): (r: real)
    requires distance >= 0 && rate >= 0.0
    ensures 0.0 <= r <= 1.0
  {
    var x := 1.0 - distance as real * rate;
    if x < 0.0 then 0.0 else x
  }

  lemma DecayMonotone(d1: int, d2: int, rate: real)
    requires 0 <= d1 <= d2 && rate >= 0.0
    ensures Decay(d2, rate) <= Decay(d1, rate)
  {
    MulMonotone(d1 as real, d2 as real, rate);
    var x1, x2 := 1.0 - d1 as real * rate, 1.0 - d2 as real * rate;
    assert x2 <= x1;
    assert Decay(d1, rate) == if x1 < 0.0 then 0.0 else x1;
    assert Decay(d2, rate) == if x2 < 0.0 then 0.0 else x2;
  }

  lemma MulMonotone(a: real, b: real, c: real)
    requires a <= b && c >= 0.0
    ensures a * c <= b * c
  {
    assert b * c - a * c == (b - a) * c;
  }

  /** The score a rule gives a candidate with `years` of experience. */
  function RuleScore(rule: ExpRule, years: int): (r: real)
    ensures 0.0 <= r <= 1.0
    ensures rule.Range? ==> (r == 1.0 <== rule.lo <= years <= rule.hi)
    ensures rule.Min? ==> (r == 1.0 <== years >= rule.minimum)
    ensures rule.Fresher? ==> (r == 1.0 <== years <= 1)
    ensures rule.Unparseable? ==> r == 0.5
  {
    match rule
    case Range(lo, hi) =>
      if years < lo then Decay(lo - years, 0.2)
      else if years > hi then Decay(years - hi, 0.1)
      else 1.0
    case Min(m) =>
      if years >= m then 1.0 else Decay(m - years, 0.2)
    case Fresher =>
      if years <= 1 then 1.0 else Decay(years - 1, 0.2)
    case Unparseable => 0.5
  }

  /** Below a range, more years never lower the score; above it, more years
      never raise it. */
  lemma RuleScore_RangeMonotone(lo: nat, hi: nat, y1: int, y2: int)
    requires lo <= hi && y1 <= y2
    ensures y2 <= lo ==> RuleScore(Range(lo, hi), y1) <= RuleScore(Range(lo, hi), y2)
    ensures hi <= y1 && lo <= y1 ==> RuleScore(Range(lo, hi), y2) <= RuleScore(Range(lo, hi), y1)
  {
    if y2 <= lo && y1 < lo {
      if y2 < lo { DecayMonotone(lo - y2, lo - y1, 0.2); }
    }
    if hi <= y1 && lo <= y1 && y2 > hi {
      if y1 > hi { DecayMonotone(y1 - hi, y2 - hi, 0.1); }
    }
  }

  /** Under a minimum, more years never lower the score. */
  lemma RuleScore_MinMonotone(m: nat, y1: int, y2: int)
    requires y1 <= y2
    ensures RuleScore(Min(m), y1) <= RuleScore(Min(m), y2)
  {
    if y2 < m { DecayMonotone(m - y2, m - y1, 0.2); }
  }

  /** Against a fresher posting, more years never raise the score. */
  lemma RuleScore_FresherMonotone(y1: int, y2: int)
    requires y1 <= y2
    ensures RuleScore(Fresher, y2) <= RuleScore(Fresher, y1)
  {
    if y1 > 1 { DecayMonotone(y1 - 1, y2 - 1, 0.2); }
  }

  /** `calculate_experience_score`: neutral 0.5 when the candidate's years
      are unknown, whatever the posting asks; otherwise the score of the rule
      the posting's text falls under. */
  function ExperienceScore(years: Option<int>, jobExperience: string): (r: real)
    ensures 0.0 <= r <= 1.0
    ensures years.None? ==> r == 0.5
    ensures ClassifyExperience(jobExperience).Unparseable? ==> r == 0.5
  {
    match years
    case None => 0.5
    case Some(y) => RuleScore(ClassifyExperience(jobExperience), y)
  }

  /** An unknown number of years gets the neutral 0.5 even against a
      posting asking for five or more, while a known 0 gets nothing: not
      knowing scores better than knowing 0. */
  lemma ExperienceScore_UnknownBeatsZero()
    ensures ExperienceScore(None, "5+ years") == 0.5
    ensures ExperienceScore(Some(0), "5+ years") == 0.0
  {
    Classify_MinExample();
  }

  /** An empty experience text asks for nothing recognisable. */
  lemma Classify_EmptyIsUnparseable()
    ensures ClassifyExperience([]) == Unparseable
  {
    var t := Lower(Strip([]));
    assert t == [];
    assert FindRange(t, 0).None? && FindMin(t, 0).None?;
    assert !HasFresherKeyword(t) by {
      forall kw | kw in FresherKeywords ensures !Contains([], kw) {
        assert |kw| > 0;
      }
    }
  }

  // ===========================================================================
  // Final score and label
  // ===========================================================================

  /** `calculate_final_score`: 50/30/20 weights, as a percentage rounded to
      two decimals. */
  function FinalScore(skill: real, role: real, experience: real): (r: real)
    ensures IsHundredths(r)
    ensures var exact := 50.0 * skill + 30.0 * role + 20.0 * experience;
      r - exact <= 0.005 && exact - r <= 0.005
  {
    var raw := skill * 0.50 + role * 0.30 + experience * 0.20;
    Round2IsHundredths(raw * 100.0);
    Round2(raw * 100.0)
  }

  /** With factors in [0, 1] the percentage lies in [0, 100]. */
  lemma FinalScore_Bounds(skill: real, role: real, experience: real)
    requires 0.0 <= skill <= 1.0 && 0.0 <= role <= 1.0 && 0.0 <= experience <= 1.0
    ensures 0.0 <= FinalScore(skill, role, experience) <= 100.0
  {
    var raw := skill * 0.50 + role * 0.30 + experience * 0.20;
    assert 0.0 <= raw * 100.0 <= 100.0;
    Round2Between(raw * 100.0, 0.0, 100.0);
  }

  /** The weights: each factor alone is worth 50, 30 or 20 points. */
  lemma FinalScore_Weights()
    ensures FinalScore(1.0, 0.0, 0.0) == 50.0
    ensures FinalScore(0.0, 1.0, 0.0) == 30.0
    ensures FinalScore(0.0, 0.0, 1.0) == 20.0
    ensures FinalScore(1.0, 1.0, 1.0) == 100.0
    ensures FinalScore(0.0, 0.0, 0.0) == 0.0
  {
    Round2Exact(50.0);
    Round2Exact(30.0);
    Round2Exact(20.0);
    Round2Exact(100.0);
    Round2Exact(0.0);
  }

  /** A higher factor never lowers the final score. */
  lemma FinalScore_Monotone(s1: real, r1: real, e1: real, s2: real, r2: real, e2: real)
    requires s1 <= s2 && r1 <= r2 && e1 <= e2
    ensures FinalScore(s1, r1, e1) <= FinalScore(s2, r2, e2)
  {
    Round2Monotone((s1 * 0.50 + r1 * 0.30 + e1 * 0.20) * 100.0, (s2 * 0.50 + r2 * 0.30 + e2 * 0.20) * 100.0);
  }

  const ExcellentMatch: string := "Excellent Match"
  const GoodMatch: string := "Good Match"
  const PartialMatch: string := "Partial Match"
  const LowMatch: string := "Low Match"

  /** `get_match_label`: four bands, each closed at its lower bound. */
  function MatchLabel(score: real): (name: string)
    ensures name == ExcellentMatch <==> score >= 80.0
    ensures name == GoodMatch <==> 60.0 <= score < 80.0
    ensures name == PartialMatch <==> 40.0 <= score < 60.0
    ensures name == LowMatch <==> score < 40.0
  {
    if score >= 80.0 then ExcellentMatch
    else if score >= 60.0 then GoodMatch
    else if score >= 40.0 then PartialMatch
    else LowMatch
  }

  /** The position of a label in the order Low < Partial < Good < Excellent. */
  function LabelRank(name: string): nat {
    if name == ExcellentMatch then 3
    else if name == GoodMatch then 2
    else if name == PartialMatch then 1
    else 0
  }

  /** A higher score never gets a lower label. */
  lemma MatchLabel_Monotone(s1: real, s2: real)
    requires s1 <= s2
    ensures LabelRank(MatchLabel(s1)) <= LabelRank(MatchLabel(s2))
  {
  }
}

/** The profile extraction rules of the résumé parser: the skill lexicon
    read from the skills list, the de-duplication of matched skills, role
    detection and years of experience.  The phrase matcher and the regular
    expressions are not modelled: what they match comes in as input. */
module NlpPipeline {
  import opened Wrappers
  import opened Text
  import opened Numeric
  import opened Seqs
  import opened Sorting

  // ---------------------------------------------------------------------------
  // The skill lexicon (`load_nlp_model`)
  // ---------------------------------------------------------------------------

  /** The lexicon built from the lines of the skills list: each non-blank
      line, trimmed, is stored under its lowercase form, a later line
      replacing an earlier one with the same key. */
  function SkillMapOf(lines: seq<string>): map<string, string>
  {
    if lines == [] then map[]
    else
      var skill := Strip(lines[|lines| - 1]);
      if skill != [] then SkillMapOf(lines[..|lines| - 1])[Lower(skill) := skill]
      else SkillMapOf(lines[..|lines| - 1])
  }

  /** The loop over the lines. */
  method BuildSkillMap(lines: seq<string>) returns (skills: map<string, string>)
    ensures skills == SkillMapOf(lines)
  {
    skills := map[];
    for i := 0 to |lines|
      invariant skills == SkillMapOf(lines[..i])
    {
      assert lines[..i + 1][..i] == lines[..i];
      var skill := Strip(lines[i]);
      if skill != [] {
        skills := skills[Lower(skill) := skill];
      }
    }
    assert lines[..|lines|] == lines;
  }

  /** The line, trimmed, is not blank and has lowercase form `k`. */
  predicate Carries(line: string, k: string) {
    Strip(line) != [] && Lower(Strip(line)) == k
  }

  /** A line that carries a key puts it in the map. */
  lemma {:induction false} SkillMap_HasKey(lines: seq<string>, i: int, k: string)
    requires 0 <= i < |lines| && Carries(lines[i], k)
    ensures k in SkillMapOf(lines)
  {
    var n := |lines| - 1;
    if Carries(lines[n], k) {
      SkillMap_Last(lines, k);
    } else {
      var init := lines[..n];
      assert init[i] == lines[i];
      SkillMap_HasKey(init, i, k);
      SkillMap_Untouched(lines, k);
    }
  }

  /** Every key of the map comes from a line that carries it. */
  lemma {:induction false} SkillMap_KeySource(lines: seq<string>, k: string)
    requires k in SkillMapOf(lines)
    ensures exists i :: 0 <= i < |lines| && Carries(lines[i], k)
  {
    var n := |lines| - 1;
    var init := lines[..n];
    if !Carries(lines[n], k) {
      SkillMap_Untouched(lines, k);
      SkillMap_KeySource(init, k);
      var i :| 0 <= i < n && Carries(init[i], k);
      assert lines[i] == init[i];
    }
  }

  /** The keys are exactly the lowercased non-blank trimmed lines. */
  lemma SkillMap_Keys(lines: seq<string>, k: string)
    ensures k in SkillMapOf(lines) <==> exists i :: 0 <= i < |lines| && Carries(lines[i], k)
  {
    if k in SkillMapOf(lines) {
      SkillMap_KeySource(lines, k);
    }
    if exists i :: 0 <= i < |lines| && Carries(lines[i], k) {
      var i :| 0 <= i < |lines| && Carries(lines[i], k);
      SkillMap_HasKey(lines, i, k);
    }
  }

  /** Every value is a trimmed non-blank line whose lowercase form is its key. */
  lemma SkillMap_Values(lines: seq<string>, k: string)
    requires k in SkillMapOf(lines)
    ensures exists i :: 0 <= i < |lines| && Carries(lines[i], k) && SkillMapOf(lines)[k] == Strip(lines[i])
    ensures SkillMapOf(lines)[k] != [] && Lower(SkillMapOf(lines)[k]) == k
  {
    SkillMap_ValueSource(lines, k);
  }

  lemma {:induction false} SkillMap_ValueSource(lines: seq<string>, k: string)
    requires k in SkillMapOf(lines)
    ensures exists i :: 0 <= i < |lines| && Carries(lines[i], k) && SkillMapOf(lines)[k] == Strip(lines[i])
  {
    var n := |lines| - 1;
    var init := lines[..n];
    if Carries(lines[n], k) {
      SkillMap_Last(lines, k);
    } else {
      SkillMap_Untouched(lines, k);
      SkillMap_ValueSource(init, k);
      var i :| 0 <= i < n && Carries(init[i], k) && SkillMapOf(init)[k] == Strip(init[i]);
      assert lines[i] == init[i];
    }
  }

  /** A last line that carries `k` sets its entry. */
  lemma SkillMap_Last(lines: seq<string>, k: string)
    requires lines != [] && Carries(lines[|lines| - 1], k)
    ensures k in SkillMapOf(lines) && SkillMapOf(lines)[k] == Strip(lines[|lines| - 1])
  {
  }

  /** A last line that does not carry `k` leaves its entry alone. */
  lemma SkillMap_Untouched(lines: seq<string>, k: string)
    requires lines != [] && !Carries(lines[|lines| - 1], k)
    ensures k in SkillMapOf(lines) <==> k in SkillMapOf(lines[..|lines| - 1])
    ensures k in SkillMapOf(lines) ==> SkillMapOf(lines)[k] == SkillMapOf(lines[..|lines| - 1])[k]
  {
  }

  /** A key holds the last line that carries it: later duplicates overwrite
      earlier ones, and the value keeps the line's own casing. */
  lemma {:induction false} SkillMap_LastWins(lines: seq<string>, i: int, k: string)
    requires 0 <= i < |lines| && Carries(lines[i], k)
    requires forall j :: i < j < |lines| ==> !Carries(lines[j], k)
    ensures k in SkillMapOf(lines) && SkillMapOf(lines)[k] == Strip(lines[i])
  {
    var n := |lines| - 1;
    if i < n {
      var init := lines[..n];
      assert init[i] == lines[i];
      forall j | i < j < |init| ensures !Carries(init[j], k) {
        assert init[j] == lines[j];
      }
      SkillMap_LastWins(init, i, k);
      SkillMap_Untouched(lines, k);
    } else {
      SkillMap_Last(lines, k);
    }
  }

  /** The module-level skill map: filled by the loader, read by every
      extraction. */
  class SkillLexicon {
    var skillMap: map<string, string>

    constructor()
      ensures skillMap == map[]
    {
      skillMap := map[];
    }

    /** The skills-list part of `load_nlp_model`: builds the map and
        replaces the module-level one with it. */
    method Load(lines: seq<string>)
      modifies this
      ensures skillMap == SkillMapOf(lines)
    {
      var skills := BuildSkillMap(lines);
      skillMap := skills;
    }

    /** `extract_skills` over the texts of the matched spans, in match order. */
    method ExtractSkills(spans: seq<string>) returns (result: seq<string>)
      ensures result == Dedup(Canonicals(skillMap, spans))
    {
      var seen: set<string> := {};
      result := [];
      for i := 0 to |spans|
        invariant result == Dedup(Canonicals(skillMap, spans[..i]))
        invariant seen == Elements(result)
      {
        var spanLower := Lower(spans[i]);
        var canonical := if spanLower in skillMap then skillMap[spanLower] else spans[i];
        assert canonical == Canonical(skillMap, spans[i]);
        DedupStep(skillMap, spans, i);
        SeenStep(result, seen, canonical);
        if canonical !in seen {
          seen := seen + {canonical};
          result := result + [canonical];
        }
      }
      assert spans[..|spans|] == spans;
    }
  }

  // ---------------------------------------------------------------------------
  // Matched skills (`extract_skills`)
  // ---------------------------------------------------------------------------

  /** The casing a span is reported in: the lexicon's, looked up by the
      span's lowercase form, or the span's own when the lexicon lacks it. */
  function Canonical(skillMap: map<string, string>, span: string): string {
    if Lower(span) in skillMap then skillMap[Lower(span)] else span
  }

  function Canonicals(skillMap: map<string, string>, spans: seq<string>): (cs: seq<string>)
    ensures |cs| == |spans|
    ensures forall i :: 0 <= i < |spans| ==> cs[i] == Canonical(skillMap, spans[i])
  {
    seq(|spans|, i requires 0 <= i < |spans| => Canonical(skillMap, spans[i]))
  }

  /** The `seen`-set loop: each value the first time it occurs.  The result
      holds the same values as the input, each once. */
  function Dedup(xs: seq<string>): (d: seq<string>)
    ensures forall x :: x in d <==> x in xs
    ensures NoDuplicates(d)
  {
    if xs == [] then []
    else
      var init := xs[..|xs| - 1];
      var x := xs[|xs| - 1];
      assert xs == init + [x];
      var p := Dedup(init);
      if x in p then p
      else
        assert forall i :: 0 <= i < |p| ==> (p + [x])[i] == p[i];
        p + [x]
  }

  /** One more span adds its canonical form unless that is already there. */
  lemma DedupStep(skillMap: map<string, string>, spans: seq<string>, i: nat)
    requires i < |spans|
    ensures var d := Dedup(Canonicals(skillMap, spans[..i]));
      var c := Canonical(skillMap, spans[i]);
      Dedup(Canonicals(skillMap, spans[..i + 1])) == if c in d then d else d + [c]
  {
    var cs := Canonicals(skillMap, spans[..i + 1]);
    assert cs[..|cs| - 1] == Canonicals(skillMap, spans[..i]);
  }

  /** The `seen` set answers membership in the result, and grows with it. */
  lemma SeenStep(result: seq<string>, seen: set<string>, c: string)
    requires seen == Elements(result)
    ensures c in seen <==> c in result
    ensures Elements(result + [c]) == seen + {c}
  {
  }

  /** Position of the first occurrence of `x`. */
  function FirstIndex<T(==)>(xs: seq<T>, x: T): (i: nat)
    requires x in xs
    ensures i < |xs| && xs[i] == x && x !in xs[..i]
  {
    if xs[0] == x then 0
    else
      var j := FirstIndex(xs[1..], x);
      assert xs[..j + 1] == [xs[0]] + xs[1..][..j];
      j + 1
  }

  lemma FirstIndexUnique<T>(xs: seq<T>, x: T, i: nat)
    requires i < |xs| && xs[i] == x && x !in xs[..i]
    ensures FirstIndex(xs, x) == i
  {
  }

  /** De-duplication keeps the order of first occurrences. */
  lemma {:induction false} Dedup_FirstOccurrenceOrder(xs: seq<string>)
    ensures forall i, j :: 0 <= i < j < |Dedup(xs)| ==>
      FirstIndex(xs, Dedup(xs)[i]) < FirstIndex(xs, Dedup(xs)[j])
  {
    if xs != [] {
      var n := |xs| - 1;
      var init := xs[..n];
      var x := xs[n];
      assert xs == init + [x];
      Dedup_FirstOccurrenceOrder(init);
      var p := Dedup(init);
      forall y | y in init ensures FirstIndex(xs, y) == FirstIndex(init, y) {
        var f := FirstIndex(init, y);
        assert xs[..f] == init[..f];
        FirstIndexUnique(xs, y, f);
      }
      if x !in p {
        assert xs[..n] == init;
        FirstIndexUnique(xs, x, n);
        forall i, j | 0 <= i < j < |p + [x]|
          ensures FirstIndex(xs, (p + [x])[i]) < FirstIndex(xs, (p + [x])[j])
        {
          assert (p + [x])[i] == p[i] && p[i] in init;
          if j < |p| {
            assert (p + [x])[j] == p[j] && p[j] in init;
          }
        }
      } else {
        forall i, j | 0 <= i < j < |p| ensures FirstIndex(xs, p[i]) < FirstIndex(xs, p[j]) {
          assert p[i] in init && p[j] in init;
        }
      }
    }
  }

  /** Canonical casing only changes case: a reported skill always has the
      lowercase form of the span it came from, when the lexicon is one built
      from a skills list. */
  lemma Canonical_SameLowercase(lines: seq<string>, span: string)
    ensures Lower(Canonical(SkillMapOf(lines), span)) == Lower(span)
  {
    if Lower(span) in SkillMapOf(lines) {
      SkillMap_Values(lines, Lower(span));
    }
  }

  /** The same skill matched in two casings is reported once, in the
      lexicon's casing. */
  lemma ExtractSkills_CaseVariants(lines: seq<string>, a: string, b: string)
    requires Lower(a) == Lower(b) && Lower(a) in SkillMapOf(lines)
    ensures Dedup(Canonicals(SkillMapOf(lines), [a, b])) == [SkillMapOf(lines)[Lower(a)]]
  {
    var m := SkillMapOf(lines);
    var cs := Canonicals(m, [a, b]);
    var c := m[Lower(a)];
    assert cs == [c, c];
    assert cs[..1] == [c] && [c][..0] == [];
    assert Dedup([c]) == [c];
  }

  // ---------------------------------------------------------------------------
  // Role detection (`extract_parsed_role`)
  // ---------------------------------------------------------------------------

  /** The role keywords in the order they are written. */
  const RoleKeywordList: seq<string> := [
    "software engineer",
    "software developer",
    "backend developer",
    "frontend developer",
    "fullstack developer",
    "full stack developer",
    "full-stack developer",
    "data scientist",
    "data analyst",
    "data engineer",
    "machine learning engineer",
    "devops engineer",
    "cloud engineer",
    "network engineer",
    "security engineer",
    "embedded systems engineer",
    "mechanical engineer",
    "civil engineer",
    "electrical engineer",
    "qa engineer",
    "qa tester",
    "test engineer",
    "automation engineer",
    "business analyst",
    "systems analyst",
    "database administrator",
    "system administrator",
    "cloud architect",
    "solutions architect",
    "ui/ux designer",
    "ui designer",
    "ux designer",
    "product manager",
    "project manager",
    "scrum master",
    "developer",
    "engineer",
    "analyst",
    "designer",
    "manager",
    "consultant",
    "architect",
    "administrator",
    "scientist",
    "tester",
    "devops",
    "backend",
    "frontend",
    "fullstack",
    "full stack",
    "software",
    "mechanical",
    "civil",
    "electrical",
    "embedded",
    "cloud",
    "network",
    "security",
    "qa",
    "data"
  ]

  function LengthOf(k: string): real { |k| as real }

  /** The keywords longest first, ties in written order. The list goes in
      as a whole-list slice so that the verifier reasons about the sort
      through its lemmas instead of evaluating it on the literal. */
  const RoleKeywords: seq<string> := SortDescending(RoleKeywordList[..|RoleKeywordList|], LengthOf)

  /** The order `sorted(..., key=len, reverse=True)` guarantees: longest
      first, the same keywords, and keywords of one length in written order. */
  lemma RoleKeywords_LongestFirst(n: real)
    ensures Descending(RoleKeywords, LengthOf)
    ensures multiset(RoleKeywords) == multiset(RoleKeywordList)
    ensures WithKey(RoleKeywords, LengthOf, n) == WithKey(RoleKeywordList, LengthOf, n)
  {
    assert RoleKeywordList[..|RoleKeywordList|] == RoleKeywordList;
    SortDescending_Spec(RoleKeywordList, LengthOf, n);
  }

  /** The first keyword, in list order, that occurs in `s`. */
  function FirstKeywordIn(keywords: seq<string>, s: string): (r: Option<string>)
    ensures r.None? <==> forall k :: k in keywords ==> !Contains(s, k)
    ensures r.Some? ==> r.value in keywords && Contains(s, r.value)
  {
    if keywords == [] then None
    else if Contains(s, keywords[0]) then Some(keywords[0])
    else FirstKeywordIn(keywords[1..], s)
  }

  /** It is the leftmost hit of the list. */
  lemma {:induction false} FirstKeyword_Leftmost(keywords: seq<string>, s: string)
    requires FirstKeywordIn(keywords, s).Some?
    ensures exists i ::
      && 0 <= i < |keywords|
      && keywords[i] == FirstKeywordIn(keywords, s).value
      && forall j :: 0 <= j < i ==> !Contains(s, keywords[j])
  {
    if !Contains(s, keywords[0]) {
      FirstKeyword_Leftmost(keywords[1..], s);
      var i :| 0 <= i < |keywords[1..]|
        && keywords[1..][i] == FirstKeywordIn(keywords[1..], s).value
        && forall j :: 0 <= j < i ==> !Contains(s, keywords[1..][j]);
      assert keywords[i + 1] == FirstKeywordIn(keywords, s).value;
      forall j | 0 <= j < i + 1 ensures !Contains(s, keywords[j]) {
        if j > 0 { assert keywords[j] == keywords[1..][j - 1]; }
      }
    }
  }

  /** On a list ordered longest first, the first hit is a longest keyword
      that occurs. */
  lemma {:induction false} FirstKeyword_Longest(keywords: seq<string>, s: string, k: string)
    requires Descending(keywords, LengthOf)
    requires k in keywords && Contains(s, k)
    ensures FirstKeywordIn(keywords, s).Some?
    ensures |k| <= |FirstKeywordIn(keywords, s).value|
  {
    var i :| 0 <= i < |keywords| && keywords[i] == k;
    if Contains(s, keywords[0]) {
      assert LengthOf(keywords[0]) >= LengthOf(keywords[i]);
    } else {
      assert i > 0 && keywords[1..][i - 1] == k;
      assert Descending(keywords[1..], LengthOf) by {
        forall a, b | 0 <= a < b < |keywords[1..]|
          ensures LengthOf(keywords[1..][a]) >= LengthOf(keywords[1..][b])
        {
          assert keywords[1..][a] == keywords[a + 1] && keywords[1..][b] == keywords[b + 1];
        }
      }
      FirstKeyword_Longest(keywords[1..], s, k);
    }
  }

  /** Strategy 1: the snippets after the section headers, in order, each
      lowercased and searched for a keyword. */
  function SnippetKeyword(keywords: seq<string>, snippets: seq<string>): (r: Option<string>)
    ensures r.None? <==> forall i :: 0 <= i < |snippets| ==> FirstKeywordIn(keywords, Lower(snippets[i])).None?
  {
    if snippets == [] then None
    else
      var hit := FirstKeywordIn(keywords, Lower(snippets[0]));
      if hit.Some? then hit
      else
        var r := SnippetKeyword(keywords, snippets[1..]);
        assert forall i :: 1 <= i < |snippets| ==> snippets[i] == snippets[1..][i - 1];
        r
  }

  /** `extract_parsed_role`, given the header snippets the section-header
      expression finds and the cleaned text: the keyword found, title-cased. */
  function RoleScan(keywords: seq<string>, snippets: seq<string>, cleanedText: string): (role: Option<string>)
  {
    match SnippetKeyword(keywords, snippets)
    case Some(k) => Some(Title(k))
    case None =>
      match FirstKeywordIn(keywords, cleanedText)
      case Some(k) => Some(Title(k))
      case None => None
  }

  /** No role exactly when no keyword occurs in any snippet (lowercased) or
      in the text. */
  lemma RoleScan_NoneIff(keywords: seq<string>, snippets: seq<string>, cleanedText: string)
    ensures RoleScan(keywords, snippets, cleanedText).None? <==>
      && (forall i, k :: 0 <= i < |snippets| && k in keywords ==> !Contains(Lower(snippets[i]), k))
      && (forall k :: k in keywords ==> !Contains(cleanedText, k))
  {
    if SnippetKeyword(keywords, snippets).Some? {
      var i :| 0 <= i < |snippets| && FirstKeywordIn(keywords, Lower(snippets[i])).Some?;
      var k := FirstKeywordIn(keywords, Lower(snippets[i])).value;
      assert k in keywords && Contains(Lower(snippets[i]), k);
    }
  }

  /** A detected role is a keyword in title case, and lowercasing it gives
      back the keyword's lowercase form. */
  lemma RoleScan_IsKeyword(keywords: seq<string>, snippets: seq<string>, cleanedText: string)
    requires RoleScan(keywords, snippets, cleanedText).Some?
    ensures exists k ::
      && k in keywords
      && RoleScan(keywords, snippets, cleanedText).value == Title(k)
      && Lower(RoleScan(keywords, snippets, cleanedText).value) == Lower(k)
  {
    var k := if SnippetKeyword(keywords, snippets).Some? then SnippetKeyword(keywords, snippets).value
      else FirstKeywordIn(keywords, cleanedText).value;
    if SnippetKeyword(keywords, snippets).Some? {
      var i :| 0 <= i < |snippets| && FirstKeywordIn(keywords, Lower(snippets[i])).Some?;
      SnippetKeyword_FirstHit(keywords, snippets, i);
    }
    LowerOfTitle(k);
  }

  lemma {:induction false} SnippetKeyword_FirstHit(keywords: seq<string>, snippets: seq<string>, i: int)
    requires 0 <= i < |snippets| && FirstKeywordIn(keywords, Lower(snippets[i])).Some?
    ensures exists j ::
      && 0 <= j <= i
      && SnippetKeyword(keywords, snippets) == FirstKeywordIn(keywords, Lower(snippets[j]))
      && forall l :: 0 <= l < j ==> FirstKeywordIn(keywords, Lower(snippets[l])).None?
  {
    if FirstKeywordIn(keywords, Lower(snippets[0])).None? {
      assert snippets[1..][i - 1] == snippets[i];
      SnippetKeyword_FirstHit(keywords, snippets[1..], i - 1);
      var j :| 0 <= j <= i - 1
        && SnippetKeyword(keywords, snippets[1..]) == FirstKeywordIn(keywords, Lower(snippets[1..][j]))
        && forall l :: 0 <= l < j ==> FirstKeywordIn(keywords, Lower(snippets[1..][l])).None?;
      assert snippets[1..][j] == snippets[j + 1];
      forall l | 0 <= l < j + 1 ensures FirstKeywordIn(keywords, Lower(snippets[l])).None? {
        if l > 0 { assert snippets[l] == snippets[1..][l - 1]; }
      }
    }
  }

  /** The snippets come first: the first snippet holding a keyword decides
      the role. */
  lemma RoleScan_SnippetFirst(keywords: seq<string>, snippets: seq<string>, cleanedText: string, i: int)
    requires 0 <= i < |snippets|
    requires forall l :: 0 <= l < i ==> FirstKeywordIn(keywords, Lower(snippets[l])).None?
    requires FirstKeywordIn(keywords, Lower(snippets[i])).Some?
    ensures RoleScan(keywords, snippets, cleanedText) == Some(Title(FirstKeywordIn(keywords, Lower(snippets[i])).value))
  {
    SnippetKeyword_FirstHit(keywords, snippets, i);
    var j :| 0 <= j <= i
      && SnippetKeyword(keywords, snippets) == FirstKeywordIn(keywords, Lower(snippets[j]))
      && forall l :: 0 <= l < j ==> FirstKeywordIn(keywords, Lower(snippets[l])).None?;
    assert j == i;
  }

  /** `extract_parsed_role`: the scan above over the role keywords, which
      `RoleKeywords_LongestFirst` shows are ordered longest first. */
  function ParsedRole(snippets: seq<string>, cleanedText: string): (role: Option<string>) {
    RoleScan(RoleKeywords, snippets, cleanedText)
  }

  /** Within the first snippet that holds a keyword, a longest keyword wins. */
  lemma RoleScan_SnippetLongest(keywords: seq<string>, snippets: seq<string>, cleanedText: string, i: int, k: string)
    requires Descending(keywords, LengthOf)
    requires 0 <= i < |snippets|
    requires forall l :: 0 <= l < i ==> FirstKeywordIn(keywords, Lower(snippets[l])).None?
    requires k in keywords && Contains(Lower(snippets[i]), k)
    ensures exists w ::
      && w in keywords && Contains(Lower(snippets[i]), w)
      && RoleScan(keywords, snippets, cleanedText) == Some(Title(w))
      && |k| <= |w|
  {
    FirstKeyword_Longest(keywords, Lower(snippets[i]), k);
    RoleScan_SnippetFirst(keywords, snippets, cleanedText, i);
  }

  /** With no keyword in any snippet, the role is the title case of a
      longest keyword that occurs in the text. */
  lemma RoleScan_FullTextLongest(keywords: seq<string>, snippets: seq<string>, cleanedText: string, k: string)
    requires Descending(keywords, LengthOf)
    requires forall i :: 0 <= i < |snippets| ==> FirstKeywordIn(keywords, Lower(snippets[i])).None?
    requires k in keywords && Contains(cleanedText, k)
    ensures exists w ::
      && w in keywords && Contains(cleanedText, w)
      && RoleScan(keywords, snippets, cleanedText) == Some(Title(w))
      && |k| <= |w|
  {
    FirstKeyword_Longest(keywords, cleanedText, k);
  }

  // ---------------------------------------------------------------------------
  // Years of experience (`extract_experience_years`)
  // ---------------------------------------------------------------------------

  /** One match of the date-range expression: the four-digit start year and
      the text of the end (four digits or a word such as "present"). */
  datatype DateRange = DateRange(startYear: nat, endText: string)

  const PresentWords: set<string> := {"present", "current", "till date", "now"}

  /** The end year of a range: the current year for a "present" word, the
      number for digits, and nothing (the range is skipped) otherwise. */
  function EndYear(endText: string, currentYear: int): (y: Option<int>)
  {
    var t := Lower(Strip(endText));
    if t in PresentWords then Some(currentYear)
    else if t != [] && AllDigits(t) then Some(DigitsValue(t))
    else None
  }

  /** A date range once its end has been read. */
  datatype YearSpan = YearSpan(startYear: nat, endYear: Option<int>)

  function ReadRange(r: DateRange, currentYear: int): YearSpan {
    YearSpan(r.startYear, EndYear(r.endText, currentYear))
  }

  function ReadRanges(ranges: seq<DateRange>, currentYear: int): (spans: seq<YearSpan>)
    ensures |spans| == |ranges|
  {
    if ranges == [] then []
    else ReadRanges(ranges[..|ranges| - 1], currentYear) + [ReadRange(ranges[|ranges| - 1], currentYear)]
  }

  /** The months a range adds to the total: none when its end could not be
      read, when it ends before it starts, or when it is under six months. */
  function SpanMonths(sp: YearSpan): nat {
    match sp.endYear
    case None => 0
    case Some(endYear) =>
      if endYear >= sp.startYear && (endYear - sp.startYear) * 12 >= 6
      then (endYear - sp.startYear) * 12 else 0
  }

  function TotalMonths(spans: seq<YearSpan>): nat {
    if spans == [] then 0
    else TotalMonths(spans[..|spans| - 1]) + SpanMonths(spans[|spans| - 1])
  }

  /** `extract_experience_years`, given what the two explicit patterns
      found (tried in this order), the date ranges, and the current year. */
  function ExperienceYears(forward: Option<nat>, reverse: Option<nat>, ranges: seq<DateRange>, currentYear: int): (years: Option<int>)
    ensures years.Some? ==> years.value >= 0
  {
    if forward.Some? then Some(forward.value)
    else if reverse.Some? then Some(reverse.value)
    else YearsOfMonths(TotalMonths(ReadRanges(ranges, currentYear)))
  }

  /** `max(1, round(total_months / 12))` when some months were counted. */
  function YearsOfMonths(totalMonths: nat): (years: Option<int>)
    ensures years.Some? ==> years.value >= 1
  {
    if totalMonths > 0 then
      var y := RoundHalfEven(totalMonths as real / 12.0);
      Some(if y > 1 then y else 1)
    else None
  }

  method ExtractExperienceYears(forward: Option<nat>, reverse: Option<nat>, ranges: seq<DateRange>, currentYear: int)
    returns (years: Option<int>)
    ensures years == ExperienceYears(forward, reverse, ranges, currentYear)
  {
    var explicit := [forward, reverse];
    assert explicit[0] == forward && explicit[1] == reverse;
    for p := 0 to |explicit|
      invariant forall q :: 0 <= q < p ==> explicit[q].None?
    {
      if explicit[p].Some? {
        return Some(explicit[p].value);
      }
    }
    assert forward.None? && reverse.None?;
    var totalMonths := SumMonths(ranges, currentYear);
    years := MonthsToYears(totalMonths);
  }

  /** The conversion at the end: `max(1, round(total_months / 12))`. */
  method MonthsToYears(totalMonths: nat) returns (years: Option<int>)
    ensures years == YearsOfMonths(totalMonths)
  {
    if totalMonths > 0 {
      var y := RoundHalfEven(totalMonths as real / 12.0);
      years := Some(if y > 1 then y else 1);
    } else {
      years := None;
    }
  }

  /** The date-range loop: reads the end of each range and adds up the
      months of those that count. */
  method SumMonths(ranges: seq<DateRange>, currentYear: int) returns (totalMonths: nat)
    ensures totalMonths == TotalMonths(ReadRanges(ranges, currentYear))
  {
    totalMonths := 0;
    for i := 0 to |ranges|
      invariant totalMonths == TotalMonths(ReadRanges(ranges[..i], currentYear))
    {
      ReadRangesStep(ranges, i, currentYear);
      var startYear := ranges[i].startYear;
      var endRaw := Lower(Strip(ranges[i].endText));
      var endYear: int;
      if endRaw in PresentWords {
        endYear := currentYear;
      } else if endRaw != [] && AllDigits(endRaw) {
        endYear := DigitsValue(endRaw);
      } else {
        continue;
      }
      if endYear >= startYear {
        var duration := (endYear - startYear) * 12;
        if duration >= 6 {
          totalMonths := totalMonths + duration;
        }
      }
    }
    assert ranges[..|ranges|] == ranges;
  }

  lemma ReadRangesStep(ranges: seq<DateRange>, i: nat, currentYear: int)
    requires i < |ranges|
    ensures TotalMonths(ReadRanges(ranges[..i + 1], currentYear)) ==
      TotalMonths(ReadRanges(ranges[..i], currentYear)) + SpanMonths(ReadRange(ranges[i], currentYear))
  {
    assert ranges[..i + 1][..i] == ranges[..i];
    var spans := ReadRanges(ranges[..i + 1], currentYear);
    assert spans[..|spans| - 1] == ReadRanges(ranges[..i], currentYear);
  }

  /** The whole years a range adds: its length, when it ends after the year
      it starts. */
  function SpanYears(sp: YearSpan): nat {
    match sp.endYear
    case None => 0
    case Some(endYear) => if endYear > sp.startYear then endYear - sp.startYear else 0
  }

  function TotalYears(spans: seq<YearSpan>): nat {
    if spans == [] then 0
    else TotalYears(spans[..|spans| - 1]) + SpanYears(spans[|spans| - 1])
  }

  /** Both ends of a range are years, so a range lasts a whole number of
      years: the six-month threshold drops exactly the ranges that end in
      the year they start (or earlier), and the total is twelve times the
      sum of the lengths. */
  lemma {:induction false} TotalMonths_WholeYears(spans: seq<YearSpan>)
    ensures TotalMonths(spans) == 12 * TotalYears(spans)
  {
    if spans != [] {
      TotalMonths_WholeYears(spans[..|spans| - 1]);
    }
  }

  /** The sum is zero exactly when no range counts. */
  lemma {:induction false} TotalYears_ZeroIff(spans: seq<YearSpan>)
    ensures TotalYears(spans) == 0 <==> forall i :: 0 <= i < |spans| ==> SpanYears(spans[i]) == 0
  {
    if spans != [] {
      var init := spans[..|spans| - 1];
      TotalYears_ZeroIff(init);
      assert forall i :: 0 <= i < |init| ==> init[i] == spans[i];
    }
  }

  /** Counted in months, the total is turned back into the sum of the range
      lengths in years, or none when it is zero: neither the rounding nor the
      floor of one ever changes it. */
  lemma YearsOfMonths_WholeYears(spans: seq<YearSpan>)
    ensures YearsOfMonths(TotalMonths(spans)) ==
      if TotalYears(spans) > 0 then Some(TotalYears(spans)) else None
  {
    TotalMonths_WholeYears(spans);
    var n := TotalYears(spans);
    var x := (12 * n) as real / 12.0;
    assert x == n as real;
    assert x.Floor == n;
    assert RoundHalfEven(x) == n;
  }

  /** With no explicit mention, the result is the sum of the range lengths
      in years, or none when it is zero. */
  lemma ExperienceYears_FromRanges(ranges: seq<DateRange>, currentYear: int)
    ensures var n := TotalYears(ReadRanges(ranges, currentYear));
      ExperienceYears(None, None, ranges, currentYear) == if n > 0 then Some(n) else None
  {
    YearsOfMonths_WholeYears(ReadRanges(ranges, currentYear));
  }

  /** No value exactly when neither explicit pattern matched and no date
      range lasts a year or more. */
  lemma ExperienceYears_NoneIff(forward: Option<nat>, reverse: Option<nat>, ranges: seq<DateRange>, currentYear: int)
    ensures ExperienceYears(forward, reverse, ranges, currentYear).None? <==>
      && forward.None? && reverse.None?
      && forall i :: 0 <= i < |ranges| ==> SpanYears(ReadRanges(ranges, currentYear)[i]) == 0
  {
    ExperienceYears_FromRanges(ranges, currentYear);
    TotalYears_ZeroIff(ReadRanges(ranges, currentYear));
  }

  /** An explicit mention wins over any date ranges and any current year,
      and the forward pattern wins over the reverse one. */
  lemma ExperienceYears_ExplicitWins(forward: Option<nat>, reverse: Option<nat>, ranges: seq<DateRange>, currentYear: int,
                                     otherRanges: seq<DateRange>, otherYear: int)
    requires forward.Some? || reverse.Some?
    ensures ExperienceYears(forward, reverse, ranges, currentYear) == ExperienceYears(forward, reverse, otherRanges, otherYear)
    ensures ExperienceYears(forward, reverse, ranges, currentYear) == Some(if forward.Some? then forward.value else reverse.value)
  {
  }

  /** A value found from date ranges is at least one. */
  lemma ExperienceYears_RangesPositive(ranges: seq<DateRange>, currentYear: int)
    requires ExperienceYears(None, None, ranges, currentYear).Some?
    ensures ExperienceYears(None, None, ranges, currentYear).value >= 1
  {
    ExperienceYears_FromRanges(ranges, currentYear);
  }

  /** An end given in digits is read as that number, whatever the year. */
  lemma EndYear_Digits(t: string, currentYear: int)
    requires t != [] && AllDigits(t)
    ensures EndYear(t, currentYear) == Some(DigitsValue(t))
  {
    StripUnspaced(t);
    LowerOfLowercase(t);
    forall w | w in PresentWords ensures w != t {
      assert !IsDigit(w[0]);
    }
  }

  /** An end given as a "present" word, in any casing, is the current year. */
  lemma EndYear_Present(t: string, currentYear: int)
    requires Lower(t) in PresentWords
    ensures EndYear(t, currentYear) == Some(currentYear)
  {
    forall w | w in PresentWords ensures !IsSpace(w[0]) && !IsSpace(w[|w| - 1]) {
    }
    LowerIsLowercase(t);
    assert !IsSpace(t[0]) && !IsSpace(t[|t| - 1]) by {
      assert Lower(t)[0] == LowerChar(t[0]);
      assert Lower(t)[|t| - 1] == LowerChar(t[|t| - 1]);
    }
    StripUnspaced(t);
  }

  /** The value of a four-digit year. */
  lemma FourDigits(t: string)
    requires |t| == 4 && AllDigits(t)
    ensures DigitsValue(t) == (t[0] as int - '0' as int) * 1000 + (t[1] as int - '0' as int) * 100
                             + (t[2] as int - '0' as int) * 10 + (t[3] as int - '0' as int)
  {
    var a, b, c := t[..3], t[..2], t[..1];
    assert a[..2] == b && b[..1] == c && c[..0] == [];
    assert DigitsValue(c) == t[0] as int - '0' as int;
    assert DigitsValue(b) == DigitsValue(c) * 10 + (t[1] as int - '0' as int);
    assert DigitsValue(a) == DigitsValue(b) * 10 + (t[2] as int - '0' as int);
  }

  /** A range from 2019 to an end that reads as 2024 ("2024", " 2024 ")
      gives five years. */
  lemma ExperienceYears_OneRange(endText: string, currentYear: int)
    requires EndYear(endText, currentYear) == Some(2024)
    ensures ExperienceYears(None, None, [DateRange(2019, endText)], currentYear) == Some(5)
  {
    ExperienceYears_OneSpan(DateRange(2019, endText), currentYear, YearSpan(2019, Some(2024)));
  }

  /** One range gives its length in years, or nothing when that is zero. */
  lemma ExperienceYears_OneSpan(r: DateRange, currentYear: int, sp: YearSpan)
    requires ReadRange(r, currentYear) == sp
    ensures ExperienceYears(None, None, [r], currentYear) == if SpanYears(sp) > 0 then Some(SpanYears(sp)) else None
  {
    OneRangeRead(r, currentYear);
    OneSpanYears(sp);
    ExperienceYears_FromRanges([r], currentYear);
  }

  lemma OneRangeRead(r: DateRange, currentYear: int)
    ensures ReadRanges([r], currentYear) == [ReadRange(r, currentYear)]
  {
    assert [r][..0] == [];
  }

  lemma OneSpanYears(sp: YearSpan)
    ensures TotalYears([sp]) == SpanYears(sp)
  {
    assert [sp][..0] == [];
  }

  lemma TwoRangesRead(r1: DateRange, r2: DateRange, currentYear: int)
    ensures ReadRanges([r1, r2], currentYear) == [ReadRange(r1, currentYear), ReadRange(r2, currentYear)]
  {
    var rs := [r1, r2];
    assert rs[..1] == [r1] && rs[..1][..0] == [];
    assert ReadRanges(rs[..1], currentYear) == [ReadRange(r1, currentYear)];
  }

  lemma TwoSpansYears(s1: YearSpan, s2: YearSpan)
    ensures TotalYears([s1, s2]) == SpanYears(s1) + SpanYears(s2)
  {
    var spans := [s1, s2];
    assert spans[..1] == [s1] && spans[..1][..0] == [];
    assert TotalYears(spans[..1]) == SpanYears(s1);
    assert TotalYears(spans) == TotalYears(spans[..1]) + SpanYears(s2);
  }

  /** The end "2024" is the year 2024, whatever the current year. */
  lemma EndYear_Example(currentYear: int)
    ensures EndYear("2024", currentYear) == Some(2024)
  {
    var t := "2024";
    assert t[0] == '2' && t[1] == '0' && t[2] == '2' && t[3] == '4';
    EndYear_Digits(t, currentYear);
    FourDigits(t);
  }

  /** Ranges 2018 to 2020 and 2020 to 2023 add up to five years. */
  lemma ExperienceYears_TwoRanges(end1: string, end2: string, currentYear: int)
    requires EndYear(end1, currentYear) == Some(2020) && EndYear(end2, currentYear) == Some(2023)
    ensures ExperienceYears(None, None, [DateRange(2018, end1), DateRange(2020, end2)], currentYear) == Some(5)
  {
    ExperienceYears_TwoSpans(DateRange(2018, end1), DateRange(2020, end2), currentYear,
                             YearSpan(2018, Some(2020)), YearSpan(2020, Some(2023)));
  }

  /** Two ranges give the sum of their lengths in years, or nothing when it
      is zero. */
  lemma ExperienceYears_TwoSpans(r1: DateRange, r2: DateRange, currentYear: int, s1: YearSpan, s2: YearSpan)
    requires ReadRange(r1, currentYear) == s1 && ReadRange(r2, currentYear) == s2
    ensures var n := SpanYears(s1) + SpanYears(s2);
      ExperienceYears(None, None, [r1, r2], currentYear) == if n > 0 then Some(n) else None
  {
    TwoRangesRead(r1, r2, currentYear);
    TwoSpansYears(s1, s2);
    ExperienceYears_FromRanges([r1, r2], currentYear);
  }

  /** A range from 2021 to a "present" word ("Present", "NOW") runs to the
      current year. */
  lemma ExperienceYears_Present(endText: string, currentYear: int)
    requires Lower(endText) in PresentWords && currentYear > 2021
    ensures ExperienceYears(None, None, [DateRange(2021, endText)], currentYear) == Some(currentYear - 2021)
  {
    EndYear_Present(endText, currentYear);
    ExperienceYears_OneSpan(DateRange(2021, endText), currentYear, YearSpan(2021, Some(currentYear)));
  }

  /** A range that ends in the year it starts adds no months and, alone,
      gives nothing. */
  lemma ExperienceYears_SameYear(endText: string, currentYear: int)
    requires EndYear(endText, currentYear) == Some(2023)
    ensures ExperienceYears(None, None, [DateRange(2023, endText)], currentYear).None?
  {
    ExperienceYears_OneSpan(DateRange(2023, endText), currentYear, YearSpan(2023, Some(2023)));
  }

  // ---------------------------------------------------------------------------
  // The role over the actual keyword list
  // ---------------------------------------------------------------------------

  /** In the first header snippet that holds a role keyword, the role is a
      longest keyword of the list that the snippet holds. */
  lemma ParsedRole_SnippetLongest(snippets: seq<string>, cleanedText: string, i: int, k: string)
    requires 0 <= i < |snippets|
    requires forall l :: 0 <= l < i ==> FirstKeywordIn(RoleKeywords, Lower(snippets[l])).None?
    requires k in RoleKeywords && Contains(Lower(snippets[i]), k)
    ensures exists w ::
      && w in RoleKeywords && Contains(Lower(snippets[i]), w)
      && ParsedRole(snippets, cleanedText) == Some(Title(w))
      && |k| <= |w|
  {
    SortDescending_Ordered(RoleKeywordList[..|RoleKeywordList|], LengthOf);
    RoleScan_SnippetLongest(RoleKeywords, snippets, cleanedText, i, k);
  }

  /** With no role keyword in any snippet, the role is a longest keyword of
      the list that the cleaned text holds. */
  lemma ParsedRole_FullTextLongest(snippets: seq<string>, cleanedText: string, k: string)
    requires forall i :: 0 <= i < |snippets| ==> FirstKeywordIn(RoleKeywords, Lower(snippets[i])).None?
    requires k in RoleKeywords && Contains(cleanedText, k)
    ensures exists w ::
      && w in RoleKeywords && Contains(cleanedText, w)
      && ParsedRole(snippets, cleanedText) == Some(Title(w))
      && |k| <= |w|
  {
    SortDescending_Ordered(RoleKeywordList[..|RoleKeywordList|], LengthOf);
    RoleScan_FullTextLongest(RoleKeywords, snippets, cleanedText, k);
  }
}

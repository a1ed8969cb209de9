/** The simple field extractors of the rule-based résumé parser: the profile
    summary, the three skill lists, the AWS certification mentions, the top
    achievements, and the (always empty) experience list. Each regular
    expression is modelled by the scan Python's `re` performs for it. */
module ResumeParser {
  import opened Wrappers
  import opened PyStr

  // ---------------------------------------------------------------------
  // extract_summary
  // ---------------------------------------------------------------------

  const SummaryHeading := "Profile Summary"
  const EducationHeading := "Education"

  /** `re.search(r"Profile Summary(.+?)Education", text, re.DOTALL)`, group 1
      stripped, or "" without a match. The leftmost match starts at the first
      "Profile Summary" (a later heading can only see fewer "Education"s), and
      the lazy group ends at the first "Education" beginning at least one
      character after the heading. */
  function ExtractSummary(text: string): (r: string)
    ensures Trimmed(r)
    ensures (forall k :: !OccursAt(text, SummaryHeading, k)) ==> r == ""
    ensures (forall k :: !OccursAt(text, EducationHeading, k)) ==> r == ""
  {
    match FindFrom(text, SummaryHeading, 0)
    case None => ""
    case Some(p) =>
      match FindFrom(text, EducationHeading, p + |SummaryHeading| + 1)
      case None => ""
      case Some(e) =>
        Strip(text[p + |SummaryHeading|..e])
  }

  /** A summary section written between the two headings is read back,
      stripped, provided the heading does not occur earlier and the section is
      non-empty and does not itself mention "Education". */
  lemma SummaryRoundTrip(pre: string, body: string, post: string)
    requires forall k :: !OccursAt(pre, SummaryHeading, k)
    requires |body| > 0 && forall k :: !OccursAt(body, EducationHeading, k)
    ensures ExtractSummary(pre + SummaryHeading + body + EducationHeading + post) == Strip(body)
  {
    var head := pre + SummaryHeading;
    var upto := head + body;
    var text := upto + EducationHeading + post;
    Regroup(head, body, EducationHeading);
    Regroup(head, body + EducationHeading, post);
    FirstCharUniqueUnbordered(SummaryHeading);
    FindAtJunction(pre, SummaryHeading, body + EducationHeading + post, 0);
    assert FindFrom(text, SummaryHeading, 0) == Some(|pre|);
    EducationAfter(head, body, post);
    Regroup(upto, EducationHeading, post);
    SliceLeft(upto, EducationHeading + post, |head|, |upto|);
    SliceRight(head, body, |head|, |upto|);
    assert text[|head|..|upto|] == body;
  }

  /** The first "Education" at least one character into the section is the
      one that closes it, when the section does not mention it. */
  lemma EducationAfter(head: string, body: string, post: string)
    requires |body| > 0 && forall k :: !OccursAt(body, EducationHeading, k)
    ensures FindFrom(head + body + EducationHeading + post, EducationHeading, |head| + 1) == Some(|head| + |body|)
  {
    var upto := head + body;
    forall k: nat | |head| + 1 <= k
      ensures !OccursAt(upto, EducationHeading, k)
    {
      if k + |EducationHeading| <= |upto| {
        SliceRight(head, body, k, k + |EducationHeading|);
        assert !OccursAt(body, EducationHeading, k - |head|);
      }
    }
    FirstCharUniqueUnbordered(EducationHeading);
    FindAtJunction(upto, EducationHeading, post, |head| + 1);
  }

  // ---------------------------------------------------------------------
  // extract_skills
  // ---------------------------------------------------------------------

  const ProgrammingLabel := "Programming:"
  const FrameworksLabel := "Frameworks/Tools:"
  const SoftSkillsLabel := "Soft Skills:"
  const ListSeparator := ", "

  /** `key\s(.+)` matches at `k`: the key, one whitespace character, then
      at least one character other than a newline. */
  predicate MatchesAt(text: string, key: string, k: nat) {
    && OccursAt(text, key, k)
    && k + |key| + 1 < |text|
    && IsSpace(text[k + |key|])
    && text[k + |key| + 1] != '\n'
  }

  /** Where the line containing index `i` ends: the next newline, or the end. */
  function LineEnd(s: string, i: nat): (e: nat)
    requires i <= |s|
    ensures i <= e <= |s|
    ensures '\n' !in s[i..e]
    ensures e < |s| ==> s[e] == '\n'
  {
    match FindFrom(s, "\n", i)
    case None =>
      assert forall j :: i <= j < |s| ==> s[j] != '\n' by {
        forall j | i <= j < |s|
          ensures s[j] != '\n'
        {
          assert s[j..j + 1] == [s[j]];
          assert !OccursAt(s, "\n", j);
        }
      }
      |s|
    case Some(e) =>
      assert s[e..e + 1] == "\n";
      forall j | i <= j < e
        ensures s[j] != '\n'
      {
        assert s[j..j + 1] == [s[j]];
        assert !OccursAt(s, "\n", j);
      }
      e
  }

  /** The leftmost position at or after `from` where the pattern matches. */
  function FirstMatch(text: string, key: string, from: nat): (r: Option<nat>)
    requires |key| > 0
    ensures r.Some? ==> from <= r.value && MatchesAt(text, key, r.value)
    ensures r.Some? ==> forall k :: from <= k < r.value ==> !MatchesAt(text, key, k)
    ensures r.None? ==> forall k :: from <= k ==> !MatchesAt(text, key, k)
    decreases |text| - from
  {
    match FindFrom(text, key, from)
    case None => None
    case Some(k) =>
      if MatchesAt(text, key, k) then Some(k)
      else FirstMatch(text, key, k + 1)
  }

  /** Group 1 of the first match: from after the whitespace to the end of
      that line (`.` does not cross a newline, and `+` is greedy). */
  function Capture(text: string, key: string): (r: Option<string>)
    requires |key| > 0
    ensures r.None? <==> forall k :: !MatchesAt(text, key, k)
    ensures r.Some? ==> |r.value| > 0 && '\n' !in r.value
    // the capture is the rest of the line after the leftmost match
    ensures r.Some? ==>
      && FirstMatch(text, key, 0).Some?
      && r.value == RestOfLine(text, FirstMatch(text, key, 0).value + |key| + 1)
  {
    match FirstMatch(text, key, 0)
    case None => None
    case Some(k) =>
      var start := k + |key| + 1;
      assert text[start] != '\n';
      Some(RestOfLine(text, start))
  }

  /** The text from index `i` up to the next newline or the end. */
  function RestOfLine(s: string, i: nat): (r: string)
    requires i <= |s|
    ensures '\n' !in r
    // it runs from `i` up to a newline or the end, whichever comes first
    ensures i + |r| <= |s| && r == s[i..i + |r|]
    ensures i + |r| == |s| || s[i + |r|] == '\n'
  {
    s[i..LineEnd(s, i)]
  }

  /** One skill list: `findall(...)[0].split(", ")`, or [] without a match. */
  function SkillList(text: string, key: string): (r: seq<string>)
    requires |key| > 0
    ensures r == [] <==> Capture(text, key).None?
    ensures Capture(text, key).Some? ==> Join(r, ListSeparator) == Capture(text, key).value
  {
    match Capture(text, key)
    case None => []
    case Some(c) =>
      JoinSplit(c, ListSeparator);
      Split(c, ListSeparator)
  }

  datatype Skills = Skills(programming: seq<string>, frameworksTools: seq<string>, softSkills: seq<string>)

  /** `extract_skills`. */
  function ExtractSkills(text: string): (r: Skills)
    ensures (forall k :: !OccursAt(text, ProgrammingLabel, k)) ==> r.programming == []
    ensures (forall k :: !OccursAt(text, FrameworksLabel, k)) ==> r.frameworksTools == []
    ensures (forall k :: !OccursAt(text, SoftSkillsLabel, k)) ==> r.softSkills == []
    ensures Capture(text, ProgrammingLabel).Some? ==> Join(r.programming, ListSeparator) == Capture(text, ProgrammingLabel).value
    ensures Capture(text, FrameworksLabel).Some? ==> Join(r.frameworksTools, ListSeparator) == Capture(text, FrameworksLabel).value
    ensures Capture(text, SoftSkillsLabel).Some? ==> Join(r.softSkills, ListSeparator) == Capture(text, SoftSkillsLabel).value
  {
    Skills(SkillList(text, ProgrammingLabel), SkillList(text, FrameworksLabel), SkillList(text, SoftSkillsLabel))
  }

  /** A skills line written as "key list" is read back as the list, when
      the key does not occur earlier and no item contains ", " or a newline. */
  lemma SkillsRoundTrip(pre: string, key: string, items: seq<string>, post: string)
    requires Unbordered(key)
    requires forall k :: !OccursAt(pre, key, k)
    requires |items| > 0 && |items[0]| > 0
    requires forall i :: 0 <= i < |items| ==> '\n' !in items[i] && forall k :: !OccursAt(items[i], ListSeparator, k)
    ensures SkillList(pre + key + " " + Join(items, ListSeparator) + "\n" + post, key) == items
  {
    var line := Join(items, ListSeparator);
    JoinNoNewline(items);
    JoinHead(items);
    SkillCapture(pre, key, line, post);
    SplitJoinSeparated(items);
  }

  /** Each of the three skill labels is unbordered, since its closing colon
      occurs nowhere else in it, so `SkillsRoundTrip` applies to all three. */
  lemma SkillLabelsUnbordered()
    ensures Unbordered(ProgrammingLabel) && Unbordered(FrameworksLabel) && Unbordered(SoftSkillsLabel)
  {
    LastCharUniqueUnbordered(ProgrammingLabel);
    LastCharUniqueUnbordered(FrameworksLabel);
    LastCharUniqueUnbordered(SoftSkillsLabel);
  }

  /** The capture of "key line" is the line, when the key does not occur
      before and the line is non-empty and has no newline. */
  lemma SkillCapture(pre: string, key: string, line: string, post: string)
    requires Unbordered(key)
    requires forall k :: !OccursAt(pre, key, k)
    requires |line| > 0 && '\n' !in line
    ensures Capture(pre + key + " " + line + "\n" + post, key) == Some(line)
  {
    SkillKeyMatches(pre, key, line, post);
    CaptureLine(pre + key + " ", line, post, key, |pre|);
  }

  /** Once the key matches just before `a` ends, the capture is the rest of
      that line. */
  lemma CaptureLine(a: string, line: string, post: string, key: string, k: nat)
    requires |key| > 0 && |a| == k + |key| + 1 && '\n' !in line
    requires FirstMatch(a + line + "\n" + post, key, 0) == Some(k)
    ensures Capture(a + line + "\n" + post, key) == Some(line)
  {
    CaptureAt(a + line + "\n" + post, key, k, |a|);
    RestOfLineAt(a, line, post);
  }

  /** The line that starts right after `a` is `line`. */
  lemma RestOfLineAt(a: string, line: string, post: string)
    requires '\n' !in line
    ensures RestOfLine(a + line + "\n" + post, |a|) == line
  {
    LineEndAt(a, line, post);
    LineBetween(a, line, post);
  }

  lemma SkillKeyMatches(pre: string, key: string, line: string, post: string)
    requires Unbordered(key)
    requires forall k :: !OccursAt(pre, key, k)
    requires |line| > 0 && '\n' !in line
    ensures FirstMatch(pre + key + " " + line + "\n" + post, key, 0) == Some(|pre|)
  {
    var rest := " " + line + "\n" + post;
    assert line[0] != '\n';
    Regroup(pre + key, " " + line, "\n" + post);
    Regroup(pre + key, " ", line);
    Regroup(pre + key + " ", line, "\n" + post);
    assert pre + key + " " + line + "\n" + post == pre + key + rest;
    FirstMatchAtJunction(pre, key, rest);
  }

  /** The text between `a` and the next newline is `line`. */
  lemma LineBetween(a: string, line: string, post: string)
    ensures (a + line + "\n" + post)[|a|..|a| + |line|] == line
  {
    var u := a + line;
    SliceLeft(u, "\n" + post, |a|, |a| + |line|);
    SliceRight(a, line, |a|, |a| + |line|);
  }

  lemma CaptureAt(text: string, key: string, k: nat, start: nat)
    requires |key| > 0 && start == k + |key| + 1
    requires FirstMatch(text, key, 0) == Some(k)
    ensures start <= |text| && Capture(text, key) == Some(RestOfLine(text, start))
  {
    assert MatchesAt(text, key, k);
    assert start < |text|;
    var r := Capture(text, key);
    assert r.Some?;
    assert r.value == RestOfLine(text, start);
  }

  /** The pattern first matches where its key is appended, when the key does
      not occur before and is followed by whitespace and a non-newline. */
  lemma FirstMatchAtJunction(pre: string, key: string, rest: string)
    requires Unbordered(key)
    requires forall k :: !OccursAt(pre, key, k)
    requires |rest| >= 2 && IsSpace(rest[0]) && rest[1] != '\n'
    ensures FirstMatch(pre + key + rest, key, 0) == Some(|pre|)
  {
    var text := pre + key + rest;
    FindAtJunction(pre, key, rest, 0);
    assert text[|pre| + |key|] == rest[0];
    assert text[|pre| + |key| + 1] == rest[1];
    assert MatchesAt(text, key, |pre|);
  }

  /** The line starting right after `a` ends at the first newline appended. */
  lemma LineEndAt(a: string, line: string, post: string)
    requires '\n' !in line
    ensures LineEnd(a + line + "\n" + post, |a|) == |a| + |line|
  {
    var u := a + line;
    forall k: nat | |a| <= k
      ensures !OccursAt(u, "\n", k)
    {
      if k < |u| {
        assert u[k..k + 1] == [line[k - |a|]];
      }
    }
    FirstCharUniqueUnbordered("\n");
    FindAtJunction(u, "\n", post, |a|);
  }

  lemma {:induction false} JoinNoNewline(items: seq<string>)
    requires forall i :: 0 <= i < |items| ==> '\n' !in items[i]
    ensures '\n' !in Join(items, ListSeparator)
    decreases |items|
  {
    if |items| > 1 {
      JoinNoNewline(items[1..]);
    }
  }

  lemma JoinHead(items: seq<string>)
    requires |items| > 0 && |items[0]| > 0
    ensures |Join(items, ListSeparator)| > 0 && Join(items, ListSeparator)[0] == items[0][0]
  {
  }

  /** Splitting a ", "-join recovers the items when none contains ", ".
      An item ending in a comma is harmless: that comma is followed by the
      separator's comma, not a space, so the leftmost ", " is still the
      separator. */
  lemma {:induction false} SplitJoinSeparated(items: seq<string>)
    requires |items| > 0
    requires forall i :: 0 <= i < |items| ==> forall k :: !OccursAt(items[i], ListSeparator, k)
    ensures Split(Join(items, ListSeparator), ListSeparator) == items
    decreases |items|
  {
    var head := items[0];
    if |items| == 1 {
    } else {
      var rest := Join(items[1..], ListSeparator);
      var t := head + ListSeparator + rest;
      assert Join(items, ListSeparator) == t;
      assert t[|head|..|head| + 2] == ListSeparator;
      forall k: nat | k < |head|
        ensures !OccursAt(t, ListSeparator, k)
      {
        if k + 1 < |head| {
          SliceLeft(head, ListSeparator + rest, k, k + 2);
          assert t == head + (ListSeparator + rest);
          assert !OccursAt(head, ListSeparator, k);
        } else {
          assert t[k + 1] == ',';
          assert t[k..k + 2][1] == t[k + 1];
        }
      }
      assert OccursAt(t, ListSeparator, |head|);
      assert FindFrom(t, ListSeparator, 0) == Some(|head|);
      assert t[..|head|] == head;
      assert t[|head| + 2..] == rest;
      SplitJoinSeparated(items[1..]);
      assert items == [head] + items[1..];
    }
  }

  // ---------------------------------------------------------------------
  // extract_certifications
  // ---------------------------------------------------------------------

  const AwsCertification := "AWS Certified Cloud Practitioner"

  /** `re.findall(pat, text)` for a literal pattern: the leftmost
      non-overlapping occurrences from `from` on, each reported as the
      pattern itself. */
  function FindAll(text: string, pat: string, from: nat): (r: seq<string>)
    requires |pat| > 0
    ensures forall i :: 0 <= i < |r| ==> r[i] == pat
    decreases |text| - from
  {
    match FindFrom(text, pat, from)
    case None => []
    case Some(k) => [pat] + FindAll(text, pat, k + |pat|)
  }

  /** Positions at or after `from` where the pattern occurs. */
  ghost function Occurrences(text: string, pat: string, from: nat): set<nat> {
    set k: nat | from <= k <= |text| && OccursAt(text, pat, k)
  }

  /** For a pattern that cannot overlap itself, `findall` reports every
      occurrence. */
  lemma {:induction false} FindAllCountsOccurrences(text: string, pat: string, from: nat)
    requires FirstCharUnique(pat)
    ensures |FindAll(text, pat, from)| == |Occurrences(text, pat, from)|
  {
    CountsFrom(text, pat, from);
  }

  /** `findall` from `from` on reports every occurrence from there on. */
  ghost predicate CountsAgree(text: string, pat: string, from: nat)
    requires |pat| > 0
  {
    |FindAll(text, pat, from)| == |Occurrences(text, pat, from)|
  }

  lemma {:induction false} CountsFrom(text: string, pat: string, from: nat)
    requires FirstCharUnique(pat)
    ensures CountsAgree(text, pat, from)
    decreases |text| - from
  {
    match FindFrom(text, pat, from)
    case None =>
      NoneCounts(text, pat, from);
    case Some(k) =>
      NextBounds(text, pat, from, k);
      CountsFrom(text, pat, k + |pat|);
      StepCounts(text, pat, from, k);
  }

  lemma NextBounds(text: string, pat: string, from: nat, k: nat)
    requires FindFrom(text, pat, from) == Some(k)
    ensures from <= k && k + |pat| <= |text|
  {
  }

  lemma NoneCounts(text: string, pat: string, from: nat)
    requires |pat| > 0 && FindFrom(text, pat, from).None?
    ensures CountsAgree(text, pat, from)
  {
    assert Occurrences(text, pat, from) == {};
  }

  lemma StepCounts(text: string, pat: string, from: nat, k: nat)
    requires FirstCharUnique(pat) && FindFrom(text, pat, from) == Some(k)
    requires CountsAgree(text, pat, k + |pat|)
    ensures CountsAgree(text, pat, from)
  {
    FindAllStep(text, pat, from, k);
    OccurrencesStep(text, pat, from, k);
  }

  lemma FindAllStep(text: string, pat: string, from: nat, k: nat)
    requires |pat| > 0 && FindFrom(text, pat, from) == Some(k)
    ensures |FindAll(text, pat, from)| == 1 + |FindAll(text, pat, k + |pat|)|
  {
  }

  lemma OccurrencesStep(text: string, pat: string, from: nat, k: nat)
    requires FirstCharUnique(pat) && FindFrom(text, pat, from) == Some(k)
    ensures |Occurrences(text, pat, from)| == 1 + |Occurrences(text, pat, k + |pat|)|
  {
    var later := Occurrences(text, pat, k + |pat|);
    OccurrencesSplit(text, pat, from, k);
    assert k !in later;
  }

  /** The occurrences from `from` on are the first one, `k`, and those from
      its end on: a pattern with a unique first character cannot occur
      again inside itself. */
  lemma OccurrencesSplit(text: string, pat: string, from: nat, k: nat)
    requires FirstCharUnique(pat)
    requires FindFrom(text, pat, from) == Some(k)
    ensures Occurrences(text, pat, from) == {k} + Occurrences(text, pat, k + |pat|)
  {
    forall j: nat
      ensures j in Occurrences(text, pat, from) <==> j in {k} + Occurrences(text, pat, k + |pat|)
    {
      if k < j < k + |pat| {
        NoOverlap(text, pat, k, j);
      }
    }
  }

  /** `extract_certifications`: one entry per mention of the certification. */
  function ExtractCertifications(text: string): (r: seq<string>)
    ensures forall i :: 0 <= i < |r| ==> r[i] == AwsCertification
    ensures |r| == |Occurrences(text, AwsCertification, 0)|
  {
    FindAllCountsOccurrences(text, AwsCertification, 0);
    FindAll(text, AwsCertification, 0)
  }

  // ---------------------------------------------------------------------
  // extract_achievements and extract_experience
  // ---------------------------------------------------------------------

  const AchievementsHeading := "Achievements"
  const MaxAchievements := 3

  /** `[l.strip() for l in lines if l.strip()]`. */
  function NonBlank(lines: seq<string>): (r: seq<string>)
    ensures |r| <= |lines|
    ensures forall i :: 0 <= i < |r| ==> |r[i]| > 0 && Trimmed(r[i])
  {
    if |lines| == 0 then []
    else
      var rest := NonBlank(lines[1..]);
      var line := Strip(lines[0]);
      if line == "" then rest else [line] + rest
  }

  /** `re.search(r"Achievements(.+)", text, re.DOTALL)`: the first heading
      followed by at least one character; the greedy group runs to the end of
      the text. Then the first three stripped non-blank lines of the group. */
  function ExtractAchievements(text: string): (r: seq<string>)
    ensures |r| <= MaxAchievements
    ensures forall i :: 0 <= i < |r| ==> |r[i]| > 0 && Trimmed(r[i])
    ensures (forall k :: !OccursAt(text, AchievementsHeading, k)) ==> r == []
    // a heading whose first occurrence ends the text leaves the group empty
    ensures
      && |AchievementsHeading| <= |text|
      && OccursAt(text, AchievementsHeading, |text| - |AchievementsHeading|)
      && (forall k :: 0 <= k < |text| - |AchievementsHeading| ==> !OccursAt(text, AchievementsHeading, k))
      ==> r == []
  {
    match FindFrom(text, AchievementsHeading, 0)
    case None => []
    case Some(p) =>
      if p + |AchievementsHeading| < |text| then
        var lines := NonBlank(Split(text[p + |AchievementsHeading|..], "\n"));
        if |lines| <= MaxAchievements then lines else lines[..MaxAchievements]
      else []
  }

  /** Dropping blank lines distributes over concatenation, so the kept lines
      stay in their original order. */
  lemma {:induction false} NonBlankConcat(a: seq<string>, b: seq<string>)
    ensures NonBlank(a + b) == NonBlank(a) + NonBlank(b)
    decreases |a|
  {
    if |a| == 0 {
      assert a + b == b;
    } else {
      var line := Strip(a[0]);
      var head := if line == "" then [] else [line];
      assert (a + b)[0] == a[0];
      DropInFirst(a, b, 1);
      assert NonBlank(a + b) == head + NonBlank(a[1..] + b);
      NonBlankConcat(a[1..], b);
      assert NonBlank(a) == head + NonBlank(a[1..]);
      Regroup(head, NonBlank(a[1..]), NonBlank(b));
    }
  }

  /** One line is kept, stripped, exactly when it is not blank. */
  lemma NonBlankSingle(line: string)
    ensures NonBlank([line]) == if Strip(line) == "" then [] else [Strip(line)]
  {
    assert [line][1..] == [];
  }

  lemma {:induction false} NonBlankKeeps(items: seq<string>)
    requires forall i :: 0 <= i < |items| ==> |items[i]| > 0 && Trimmed(items[i])
    ensures NonBlank(items) == items
    decreases |items|
  {
    if |items| > 0 {
      var rest := items[1..];
      NonBlankKeeps(rest);
      NonBlankKeepsFirst(items);
    }
  }

  /** A trimmed non-empty first line is kept as it is. */
  lemma NonBlankKeepsFirst(lines: seq<string>)
    requires |lines| > 0 && |lines[0]| > 0 && Trimmed(lines[0])
    ensures NonBlank(lines) == [lines[0]] + NonBlank(lines[1..])
  {
    StripTrimmed(lines[0]);
  }

  /** An achievements section written one item per line after the heading is
      read back as its first three items. */
  lemma AchievementsRoundTrip(pre: string, items: seq<string>)
    requires forall k :: !OccursAt(pre, AchievementsHeading, k)
    requires |items| > 0
    requires forall i :: 0 <= i < |items| ==> |items[i]| > 0 && Trimmed(items[i]) && '\n' !in items[i]
    ensures var r := ExtractAchievements(pre + AchievementsHeading + "\n" + Join(items, "\n"));
      r == if |items| <= MaxAchievements then items else items[..MaxAchievements]
  {
    var body := Join(items, "\n");
    var lines := NonBlank(Split("\n" + body, "\n"));
    AchievementsGroup(pre, "\n" + body);
    LinesAfterHeading(items);
    assert lines == items;
    Regroup(pre + AchievementsHeading, "\n", body);
  }

  /** The lines of "\n" + items joined by newlines, blank ones dropped, are
      the items themselves. */
  lemma LinesAfterHeading(items: seq<string>)
    requires |items| > 0
    requires forall i :: 0 <= i < |items| ==> |items[i]| > 0 && Trimmed(items[i]) && '\n' !in items[i]
    ensures NonBlank(Split("\n" + Join(items, "\n"), "\n")) == items
  {
    SplitAfterNewline(items);
    NonBlankKeeps(items);
    var lines := [""] + items;
    assert lines[1..] == items;
    assert NonBlank(lines) == NonBlank(items);
  }

  lemma SplitAfterNewline(items: seq<string>)
    requires |items| > 0
    requires forall i :: 0 <= i < |items| ==> '\n' !in items[i]
    ensures Split("\n" + Join(items, "\n"), "\n") == [""] + items
  {
    var body := Join(items, "\n");
    SplitAppendChar("", '\n', body);
    assert "" + ['\n'] + body == "\n" + body;
    SplitJoinChar(items, '\n');
  }

  /** With the heading first appended before a non-empty group, the
      achievements are the first three non-blank lines of that group. */
  lemma AchievementsGroup(pre: string, group: string)
    requires forall k :: !OccursAt(pre, AchievementsHeading, k)
    requires |group| > 0
    ensures var lines := NonBlank(Split(group, "\n"));
      ExtractAchievements(pre + AchievementsHeading + group)
        == if |lines| <= MaxAchievements then lines else lines[..MaxAchievements]
  {
    var text := pre + AchievementsHeading + group;
    HeadingUnique();
    FirstCharUniqueUnbordered(AchievementsHeading);
    FindAtJunction(pre, AchievementsHeading, group, 0);
    assert text[|pre| + |AchievementsHeading|..] == group;
  }

  lemma HeadingUnique()
    ensures FirstCharUnique(AchievementsHeading)
  {
  }

  /** `extract_experience` always returns an empty list. */
  function ExtractExperience(text: string): (r: seq<string>)
    ensures |r| == 0
  {
    []
  }
}

/** The pure text handling around the language model in the backend's
    helper module: cleaning the PDF text page by page, stripping Markdown code
    fences from a model reply, the parse-then-repair flow for résumé JSON, the
    question-number range of a page, and picking numbered questions out of a
    reply. The PDF reader, the model and `json.loads` are parameters. */
module Utils {
  import opened Wrappers
  import opened PyStr
  import opened JsonValue

  // ---------------------------------------------------------------------
  // Line cleaning in `extract_text_from_pdf`
  // ---------------------------------------------------------------------

  /** Every whitespace character is a plain space and no two whitespace
      characters are adjacent: the shape `re.sub(r"\s+", " ", ...)` leaves. */
  predicate SingleSpaced(s: string) {
    && (forall i :: 0 <= i < |s| && IsSpace(s[i]) ==> s[i] == ' ')
    && (forall i :: 0 < i < |s| && IsSpace(s[i]) ==> !IsSpace(s[i - 1]))
  }

  /** The non-whitespace characters of `s`, in order. */
  function Visible(s: string): string
    decreases |s|
  {
    if |s| == 0 then "" else (if IsSpace(s[0]) then "" else [s[0]]) + Visible(s[1..])
  }

  lemma {:induction false} VisibleConcat(a: string, b: string)
    ensures Visible(a + b) == Visible(a) + Visible(b)
    decreases |a|
  {
    if |a| == 0 {
      assert a + b == b;
    } else {
      var head := if IsSpace(a[0]) then "" else [a[0]];
      assert (a + b)[0] == a[0];
      DropInFirst(a, b, 1);
      assert Visible(a + b) == head + Visible(a[1..] + b);
      VisibleConcat(a[1..], b);
      assert Visible(a) == head + Visible(a[1..]);
      Regroup(head, Visible(a[1..]), Visible(b));
    }
  }

  lemma {:induction false} VisibleAllSpace(w: string)
    requires AllSpace(w)
    ensures Visible(w) == ""
    decreases |w|
  {
    if |w| > 0 {
      VisibleAllSpace(w[1..]);
    }
  }

  lemma {:induction false} VisibleLStrip(s: string)
    ensures Visible(LStrip(s)) == Visible(s)
    decreases |s|
  {
    if |s| > 0 && IsSpace(s[0]) {
      VisibleLStrip(s[1..]);
    }
  }

  /** `re.sub(r"\s+", " ", line)`: each maximal run of whitespace becomes one
      space; everything else is kept in order. */
  function Collapse(s: string): (r: string)
    ensures SingleSpaced(r)
    ensures Visible(r) == Visible(s)
    ensures |s| > 0 ==> |r| > 0 && r[0] == (if IsSpace(s[0]) then ' ' else s[0])
    decreases |s|
  {
    if |s| == 0 then ""
    else if IsSpace(s[0]) then
      var rest := LStrip(s);
      VisibleLStrip(s);
      CollapseSpace(rest, Collapse(rest));
      " " + Collapse(rest)
    else
      var rest := Collapse(s[1..]);
      CollapseChar(s, rest);
      [s[0]] + rest
  }

  /** The space case of `Collapse`: one space before the collapse of the text
      after the run. */
  lemma CollapseSpace(rest: string, collapsed: string)
    requires |rest| > 0 ==> !IsSpace(rest[0])
    requires SingleSpaced(collapsed) && Visible(collapsed) == Visible(rest)
    requires |rest| > 0 ==> |collapsed| > 0 && collapsed[0] == rest[0]
    requires |rest| == 0 ==> collapsed == ""
    ensures SingleSpaced(" " + collapsed)
    ensures Visible(" " + collapsed) == Visible(rest)
  {
    assert (" " + collapsed)[1..] == collapsed;
  }

  /** The non-space case of `Collapse`: the character, then the collapse of
      the rest. */
  lemma CollapseChar(s: string, rest: string)
    requires |s| > 0 && !IsSpace(s[0])
    requires SingleSpaced(rest) && Visible(rest) == Visible(s[1..])
    ensures SingleSpaced([s[0]] + rest)
    ensures Visible([s[0]] + rest) == Visible(s)
  {
    assert ([s[0]] + rest)[1..] == rest;
  }

  /** Text already in collapsed form is left alone. */
  lemma {:induction false} CollapseSingleSpaced(s: string)
    requires SingleSpaced(s)
    ensures Collapse(s) == s
    decreases |s|
  {
    if |s| > 0 {
      var tail := s[1..];
      assert SingleSpaced(tail) by {
        forall i | 0 < i < |tail| && IsSpace(tail[i])
          ensures !IsSpace(tail[i - 1])
        {
          assert tail[i] == s[i + 1] && tail[i - 1] == s[i];
        }
      }
      if IsSpace(s[0]) {
        assert LStrip(tail) == tail;
      }
      CollapseSingleSpaced(tail);
    }
  }

  /** A slice of a single-spaced string is single-spaced. */
  lemma SliceSingleSpaced(s: string, a: nat, b: nat)
    requires SingleSpaced(s) && a <= b <= |s|
    ensures SingleSpaced(s[a..b])
  {
    var t := s[a..b];
    forall i | 0 < i < |t| && IsSpace(t[i])
      ensures !IsSpace(t[i - 1])
    {
      assert t[i] == s[a + i] && t[i - 1] == s[a + i - 1];
    }
  }

  /** Stripping single-spaced text keeps it single-spaced and loses only
      whitespace. */
  lemma StripShape(c: string)
    requires SingleSpaced(c)
    ensures SingleSpaced(Strip(c)) && Visible(Strip(c)) == Visible(c)
  {
    StripSingleSpaced(c);
    StripVisible(c);
  }

  lemma StripSingleSpaced(c: string)
    requires SingleSpaced(c)
    ensures SingleSpaced(Strip(c))
  {
    var n := LeadingSpaces(c);
    StripSlice(c);
    SliceSingleSpaced(c, n, n + |Strip(c)|);
  }

  /** Stripping loses no visible character. */
  lemma StripVisible(c: string)
    ensures Visible(Strip(c)) == Visible(c)
  {
    var n := LeadingSpaces(c);
    StripSlice(c);
    VisibleTrim(c, n, n + |Strip(c)|);
  }

  /** Cutting whitespace off both ends loses no visible character. */
  lemma VisibleTrim(c: string, a: nat, b: nat)
    requires a <= b <= |c|
    requires AllSpace(c[..a]) && AllSpace(c[b..])
    ensures Visible(c[a..b]) == Visible(c)
  {
    var front, middle, back := c[..a], c[a..b], c[b..];
    ThreeWay(c, a, b);
    VisibleConcat(front + middle, back);
    VisibleConcat(front, middle);
    VisibleAllSpace(front);
    VisibleAllSpace(back);
  }

  /** `re.sub(r"\s+", " ", line).strip()`: one cleaned line. It is Python's
      `" ".join(line.split())`: the line's words, one space between each. */
  function CleanLine(line: string): (r: string)
    ensures Trimmed(r) && SingleSpaced(r)
    ensures Visible(r) == Visible(line)
    ensures '\n' !in r
    ensures r == Join(Words(line), " ")
  {
    StripShape(Collapse(line));
    CollapseWords(line);
    Strip(Collapse(line))
  }

  predicate NoSpace(w: string) {
    forall j :: 0 <= j < |w| ==> !IsSpace(w[j])
  }

  /** The number of non-whitespace characters `s` starts with. */
  function WordLength(s: string): (n: nat)
    ensures n <= |s| && NoSpace(s[..n])
    ensures n < |s| ==> IsSpace(s[n])
    ensures |s| > 0 && !IsSpace(s[0]) ==> n > 0
    decreases |s|
  {
    if |s| == 0 || IsSpace(s[0]) then 0
    else
      var n := 1 + WordLength(s[1..]);
      assert forall j :: 1 <= j < n ==> s[..n][j] == s[1..][..n - 1][j - 1];
      n
  }

  /** Python's `s.split()` with no separator: the maximal runs of
      non-whitespace characters, in order, with no empty words. */
  function Words(s: string): (r: seq<string>)
    ensures forall i :: 0 <= i < |r| ==> |r[i]| > 0 && NoSpace(r[i])
    ensures |s| > 0 && !IsSpace(s[0]) ==> |r| > 0
    decreases |s|
  {
    if |s| == 0 then []
    else if IsSpace(s[0]) then Words(s[1..])
    else
      var n := WordLength(s);
      [s[..n]] + Words(s[n..])
  }

  /** Leading whitespace separates no words. */
  lemma {:induction false} WordsLStrip(s: string)
    ensures Words(LStrip(s)) == Words(s)
    decreases |s|
  {
    if |s| > 0 && IsSpace(s[0]) {
      WordsLStrip(s[1..]);
    }
  }

  /** `Collapse` copies a leading word as it is. */
  lemma {:induction false} CollapseWord(s: string)
    requires |s| > 0 && !IsSpace(s[0])
    ensures Collapse(s) == s[..WordLength(s)] + Collapse(s[WordLength(s)..])
    decreases |s|
  {
    var n := WordLength(s);
    var tail := s[1..];
    assert Collapse(s) == [s[0]] + Collapse(tail);
    assert WordLength(tail) == n - 1;
    ConsSlices(s, n);
    if n > 1 {
      CollapseWord(tail);
      Regroup([s[0]], tail[..n - 1], Collapse(tail[n - 1..]));
    }
  }

  /** A word, a space, and text starting with a visible character: stripping
      only touches the text's tail. */
  lemma StripAfterWord(w: string, c: string)
    requires |w| > 0 && Trimmed(w)
    requires |c| > 0 && !IsSpace(c[0])
    ensures Strip(w + " " + c) == w + " " + Strip(c)
  {
    var x := w + " " + c;
    assert LStrip(c) == c;
    RStripSlice(c);
    var m := |RStrip(c)|;
    var t := w + " " + c[..m];
    assert c == c[..m] + c[m..];
    Regroup(w + " ", c[..m], c[m..]);
    assert x == t + c[m..];
    assert t[|t| - 1] == c[m - 1];
    RStripSpaces(t, c[m..]);
    assert x[0] == w[0];
    assert LStrip(x) == x;
  }

  /** Collapsing whitespace runs and stripping joins the words with single
      spaces. */
  lemma {:induction false} CollapseWords(s: string)
    ensures Strip(Collapse(s)) == Join(Words(s), " ")
    decreases |s|
  {
    if |s| == 0 {
    } else if IsSpace(s[0]) {
      assert LStrip(s) == LStrip(s[1..]);
      CollapseWords(LStrip(s));
      CollapseWordsSpace(s);
    } else {
      var rest := s[WordLength(s)..];
      if |rest| > 0 && |LStrip(rest)| > 0 {
        CollapseWords(LStrip(rest));
      }
      CollapseWordsWord(s);
    }
  }

  /** Leading whitespace: one space that stripping removes again. */
  lemma CollapseWordsSpace(s: string)
    requires |s| > 0 && IsSpace(s[0])
    requires Strip(Collapse(LStrip(s))) == Join(Words(LStrip(s)), " ")
    ensures Strip(Collapse(s)) == Join(Words(s), " ")
  {
    StripAfterLeadingSpace(Collapse(LStrip(s)));
    WordsLStrip(s);
  }

  /** A leading word: copied as it is, then a single space before the
      remaining words if there are any. */
  lemma CollapseWordsWord(s: string)
    requires |s| > 0 && !IsSpace(s[0])
    requires var rest := s[WordLength(s)..];
      |rest| > 0 && |LStrip(rest)| > 0 ==>
        Strip(Collapse(LStrip(rest))) == Join(Words(LStrip(rest)), " ")
    ensures Strip(Collapse(s)) == Join(Words(s), " ")
  {
    var n := WordLength(s);
    var w, rest := s[..n], s[n..];
    CollapseWord(s);
    assert Words(s) == [w] + Words(rest);
    assert Trimmed(w);
    if |rest| == 0 {
      assert Collapse(s) == w + "" == w;
      StripTrimmed(w);
      assert Words(s) == [w];
    } else {
      var next := LStrip(rest);
      assert Collapse(rest) == " " + Collapse(next);
      WordsLStrip(rest);
      Regroup(w, " ", Collapse(next));
      if |next| == 0 {
        WordThenBlank(w);
        assert Words(s) == [w] + [] == [w];
      } else {
        StripAfterWord(w, Collapse(next));
        assert ([w] + Words(next))[1..] == Words(next);
      }
    }
  }

  lemma WordThenBlank(w: string)
    requires Trimmed(w)
    ensures Strip(w + " " + Collapse("")) == w
  {
    assert w + " " + Collapse("") == w + " ";
    assert AllSpace(" ");
    StripTrailingSpaces(w, " ");
  }


  /** The lines `CleanLine` leaves unchanged are exactly the trimmed,
      single-spaced ones. */
  lemma CleanLineFixedPoints(line: string)
    ensures CleanLine(line) == line <==> Trimmed(line) && SingleSpaced(line)
  {
    if Trimmed(line) && SingleSpaced(line) {
      CollapseSingleSpaced(line);
      StripTrimmed(line);
    }
  }

  /** Cleaning a cleaned line changes nothing. */
  lemma CleanLineIdempotent(line: string)
    ensures CleanLine(CleanLine(line)) == CleanLine(line)
  {
    CleanLineFixedPoints(CleanLine(line));
  }

  /** The cleaned `\n`-separated lines of one page's raw text. */
  function CleanLines(raw: string): seq<string> {
    var parts := Split(raw, "\n");
    seq(|parts|, i requires 0 <= i < |parts| => CleanLine(parts[i]))
  }

  /** `"\n".join(clean(line) for line in raw.split("\n"))`. */
  function CleanPage(raw: string): string {
    Join(CleanLines(raw), "\n")
  }

  /** Cleaning keeps the page's lines: splitting the cleaned page gives one
      line per raw line, the i-th being the cleaning of the i-th. */
  lemma CleanPageLines(raw: string)
    ensures Split(CleanPage(raw), "\n") == CleanLines(raw)
    ensures |Split(CleanPage(raw), "\n")| == |Split(raw, "\n")|
  {
    var lines := CleanLines(raw);
    assert forall i :: 0 <= i < |lines| ==> '\n' !in lines[i];
    SplitJoinChar(lines, '\n');
  }

  /** The text `extract_text_from_pdf` builds: each page's cleaned text
      followed by a newline. */
  function ExtractText(pages: seq<string>): string {
    if |pages| == 0 then ""
    else ExtractText(pages[..|pages| - 1]) + CleanPage(pages[|pages| - 1]) + "\n"
  }

  /** The cleaned lines of all pages, in page order. */
  function AllLines(pages: seq<string>): seq<string> {
    if |pages| == 0 then [] else AllLines(pages[..|pages| - 1]) + CleanLines(pages[|pages| - 1])
  }

  /** One page's cleaned text and its newline contribute that page's lines. */
  lemma PageThen(raw: string, rest: string)
    ensures Split(CleanPage(raw) + "\n" + rest, "\n") == CleanLines(raw) + Split(rest, "\n")
  {
    SplitAppendChar(CleanPage(raw), '\n', rest);
    CleanPageLines(raw);
  }

  lemma {:induction false} ExtractTextThen(pages: seq<string>, rest: string)
    ensures Split(ExtractText(pages) + rest, "\n") == AllLines(pages) + Split(rest, "\n")
    decreases |pages|
  {
    if |pages| == 0 {
      assert ExtractText(pages) + rest == rest;
    } else {
      var init := pages[..|pages| - 1];
      var last := pages[|pages| - 1];
      var e, page := ExtractText(init), CleanPage(last);
      var tail := page + "\n" + rest;
      assert ExtractText(pages) == e + page + "\n";
      Regroup(e, page, "\n");
      Regroup(e, page + "\n", rest);
      assert ExtractText(pages) + rest == e + tail;
      ExtractTextThen(init, tail);
      PageThen(last, rest);
      assert AllLines(pages) == AllLines(init) + CleanLines(last);
      Regroup(AllLines(init), CleanLines(last), Split(rest, "\n"));
    }
  }

  /** The extracted text's lines are the cleaned lines of every page in
      order, followed by the empty piece after the final newline; so the line
      count is the pages' raw line counts added up. */
  lemma ExtractTextLines(pages: seq<string>)
    ensures Split(ExtractText(pages), "\n") == AllLines(pages) + [""]
  {
    ExtractTextThen(pages, "");
    assert ExtractText(pages) + "" == ExtractText(pages);
  }

  // ---------------------------------------------------------------------
  // Code-fence stripping in `parse_resume_text_from_fileobj`
  // ---------------------------------------------------------------------

  const Fence := "```"
  const JsonFence := "```json"

  /** No "```" anywhere in `s`. */
  ghost predicate NoFence(s: string) {
    forall k: nat :: !OccursAt(s, Fence, k)
  }

  /** `NoFence` is Python's `"```" not in s`. */
  lemma NoFenceIsNotIn(s: string)
    ensures NoFence(s) <==> !Contains(s, Fence)
  {
    ContainsIff(s, Fence);
  }

  /** A slice of fence-free text is fence-free. */
  lemma SliceNoFence(s: string, a: nat, b: nat)
    requires NoFence(s) && a <= b <= |s|
    ensures NoFence(s[a..b])
  {
    var t := s[a..b];
    forall k: nat | k + 3 <= |t|
      ensures !OccursAt(t, Fence, k)
    {
      assert !OccursAt(s, Fence, a + k);
      assert t[k..k + 3] == [t[k], t[k + 1], t[k + 2]];
      assert s[a + k..a + k + 3] == [s[a + k], s[a + k + 1], s[a + k + 2]];
    }
  }

  /** `re.sub(r"```(json)?", "", s)`: scanning left to right, every "```json"
      and every other "```" is deleted (the optional group is greedy, so
      "```json" is preferred where it matches). */
  function RemoveFenceTokens(s: string): (r: string)
    ensures |r| <= |s|
    ensures NoFence(r)
    ensures |s| > 0 && s[0] != '`' ==> |r| > 0 && r[0] == s[0]
    ensures StartsWith(r, "``") ==> StartsWith(s, "``")
    ensures '`' !in s ==> r == s
    decreases |s|
  {
    if |s| == 0 then ""
    else if StartsWith(s, JsonFence) then RemoveFenceTokens(s[7..])
    else if StartsWith(s, Fence) then RemoveFenceTokens(s[3..])
    else
      var rest := RemoveFenceTokens(s[1..]);
      KeepChar(s, rest);
      HeadTail(s);
      [s[0]] + rest
  }

  /** The keep-one-character case of `RemoveFenceTokens`: a backtick that does
      not start a fence cannot complete one with what follows. */
  lemma KeepChar(s: string, rest: string)
    requires |s| > 0 && !StartsWith(s, Fence)
    requires |rest| <= |s| - 1 && NoFence(rest)
    requires |s| > 1 && s[1] != '`' ==> |rest| > 0 && rest[0] == s[1]
    requires StartsWith(rest, "``") ==> StartsWith(s[1..], "``")
    ensures NoFence([s[0]] + rest)
    ensures StartsWith([s[0]] + rest, "``") ==> StartsWith(s, "``")
  {
    var t := [s[0]] + rest;
    forall k: nat | k + 3 <= |t|
      ensures !OccursAt(t, Fence, k)
    {
      if k == 0 {
        assert t[0..3] == [s[0], rest[0], rest[1]];
        assert rest[0..2] == [rest[0], rest[1]];
        assert s[1..][0..2] == s[1..3];
        assert s[0..3] == [s[0], s[1], s[2]];
      } else {
        assert t[k..k + 3] == rest[k - 1..k + 2];
        assert !OccursAt(rest, Fence, k - 1);
      }
    }
    if |t| >= 2 {
      assert t[0..2] == [s[0], rest[0]];
      assert s[0..2] == [s[0], s[1]];
    }
  }

  /** What the backend does to a stripped model reply: when it starts with
      "```", the fence tokens are removed, any remaining "```" replaced by
      nothing, and the result stripped again; otherwise it is left as is. */
  function StripFences(raw: string): (r: string)
    ensures !StartsWith(raw, Fence) ==> r == raw
    ensures StartsWith(raw, Fence) ==> Trimmed(r) && NoFence(r)
    // the second replacement never finds anything left to delete
    ensures StartsWith(raw, Fence) ==> r == Strip(RemoveFenceTokens(raw))
  {
    if StartsWith(raw, Fence) then
      Unfenced(RemoveFenceTokens(raw));
      Strip(Replace(RemoveFenceTokens(raw), Fence, ""))
    else raw
  }

  lemma Unfenced(removed: string)
    requires NoFence(removed)
    ensures NoFence(Strip(Replace(removed, Fence, "")))
  {
    assert Replace(removed, Fence, "") == removed;
    var n := LeadingSpaces(removed);
    var r := Strip(removed);
    StripSlice(removed);
    SliceNoFence(removed, n, n + |r|);
  }

  /** Any text not starting a "```" token keeps its first character,
      backtick or not, in front of the removal of the rest. */
  lemma RemoveFenceKeepsChar(s: string)
    requires |s| > 0 && !StartsWith(s, Fence)
    ensures RemoveFenceTokens(s) == [s[0]] + RemoveFenceTokens(s[1..])
  {
    NoJsonFenceWithoutFence(s);
    assert !StartsWith(s, JsonFence) && !StartsWith(s, Fence);
  }

  /** "```json" begins with "```". */
  lemma NoJsonFenceWithoutFence(s: string)
    requires !StartsWith(s, Fence)
    ensures !StartsWith(s, JsonFence)
  {
    if |s| >= 7 {
      assert s[..7][..3] == s[..3];
      assert JsonFence[..3] == Fence;
    }
  }

  /** Inline code in single backticks survives inside a fenced reply, as
      `re.sub` leaves a backtick that does not start "```". */
  lemma StrayBacktickKept(w: string)
    requires '`' !in w
    ensures RemoveFenceTokens("`" + w + "`") == "`" + w + "`"
  {
    var tick := "`";
    var s := tick + w + tick;
    LoneBacktickKept();
    RemoveFenceKeepsText(w, tick);
    InlineCodeNotFence(w);
    RemoveFenceKeepsChar(s);
    assert s == [s[0]] + (w + tick) && s[1..] == w + tick;
  }

  lemma LoneBacktickKept()
    ensures RemoveFenceTokens("`") == "`"
  {
    var tick := "`";
    assert !StartsWith(tick, Fence);
    RemoveFenceKeepsChar(tick);
    assert tick[1..] == [] && RemoveFenceTokens([]) == [];
  }

  lemma InlineCodeNotFence(w: string)
    requires '`' !in w
    ensures !StartsWith("`" + w + "`", Fence)
  {
    var s := "`" + w + "`";
    if |w| > 0 {
      assert s[..3][1] == w[0] != '`';
    }
  }

  /** Text without backticks passes through the token removal unchanged and
      in place: only the tokens themselves are deleted. */
  lemma {:induction false} RemoveFenceKeepsText(a: string, t: string)
    requires '`' !in a
    ensures RemoveFenceTokens(a + t) == a + RemoveFenceTokens(t)
    decreases |a|
  {
    if |a| == 0 {
      assert a + t == t;
    } else {
      var s := a + t;
      assert s[0] == a[0] && s[0] != '`';
      assert !StartsWith(s, Fence) && !StartsWith(s, JsonFence);
      DropInFirst(a, t, 1);
      assert '`' !in a[1..];
      RemoveFenceKeepsText(a[1..], t);
      assert RemoveFenceTokens(s) == [a[0]] + (a[1..] + RemoveFenceTokens(t));
      HeadTail(a);
      Regroup([a[0]], a[1..], RemoveFenceTokens(t));
    }
  }

  /** A "```" token is deleted together with a "json" right after it, and
      alone otherwise. */
  lemma RemoveFenceDropsToken(t: string)
    ensures RemoveFenceTokens(Fence + t) ==
      if StartsWith(t, "json") then RemoveFenceTokens(t[4..]) else RemoveFenceTokens(t)
  {
    var s := Fence + t;
    assert JsonFence == Fence + "json";
    StartsWithAfter(Fence, t, "json");
    assert s[..3] == Fence && s[3..] == t;
    if StartsWith(t, "json") {
      assert s[7..] == t[4..];
    }
  }

  /** A reply fenced as "```json" + body + "```", or "```" + body + "```",
      with no backtick in the body, comes back as the stripped body. A body
      after a plain fence that itself begins "json" loses that word, since
      the pattern's optional group takes it. */
  lemma FencedBodyRecovered(body: string)
    requires '`' !in body
    ensures StripFences(JsonFence + body + Fence) == Strip(body)
    ensures !StartsWith(body, "json") ==> StripFences(Fence + body + Fence) == Strip(body)
  {
    TaggedTokensRemoved(body);
    assert StartsWith(JsonFence + body + Fence, Fence);
    if !StartsWith(body, "json") {
      PlainTokensRemoved(body);
      assert StartsWith(Fence + body + Fence, Fence);
    }
  }

  lemma TaggedTokensRemoved(body: string)
    requires '`' !in body
    ensures RemoveFenceTokens(JsonFence + body + Fence) == body
  {
    var rest := body + Fence;
    var tagged := "json" + rest;
    BodyThenFence(body);
    assert JsonFence == Fence + "json";
    Regroup(Fence, "json", body);
    Regroup(Fence, "json" + body, Fence);
    Regroup("json", body, Fence);
    assert JsonFence + body + Fence == Fence + tagged;
    assert tagged[..4] == "json";
    DropInFirst("json", rest, 4);
    assert "json"[4..] == "";
    RemoveFenceDropsToken(tagged);
  }

  lemma PlainTokensRemoved(body: string)
    requires '`' !in body && !StartsWith(body, "json")
    ensures RemoveFenceTokens(Fence + body + Fence) == body
  {
    var rest := body + Fence;
    BodyThenFence(body);
    NotJsonBeforeFence(body);
    assert Fence + body + Fence == Fence + rest;
    RemoveFenceDropsToken(rest);
  }

  /** A closing fence cannot complete a "json" the body does not start with. */
  lemma NotJsonBeforeFence(body: string)
    requires '`' !in body && !StartsWith(body, "json")
    ensures !StartsWith(body + Fence, "json")
  {
    var rest := body + Fence;
    if |body| >= 4 {
      assert rest[..4] == body[..4];
    } else if |rest| >= 4 {
      assert rest[..4][|body|] == rest[|body|] == '`';
    }
  }

  /** The closing fence after a backtick-free body is deleted. */
  lemma BodyThenFence(body: string)
    requires '`' !in body
    ensures RemoveFenceTokens(body + Fence) == body
  {
    assert RemoveFenceTokens(Fence) == "" by {
      assert Fence[3..] == "";
    }
    RemoveFenceKeepsText(body, Fence);
    assert body + "" == body;
  }

  /** A fenced JSON reply comes back as the bare JSON text. */
  lemma FencedReplyExample()
    ensures StripFences("```json{}```") == "{}"
  {
    var raw := "```json{}```";
    FenceTokensRemoved();
    assert StartsWith(raw, Fence);
    assert Replace("{}", Fence, "") == "{}";
    StripTrimmed("{}");
  }

  /** Both fence tokens of the sample reply are deleted. */
  lemma FenceTokensRemoved()
    ensures RemoveFenceTokens("```json{}```") == "{}"
  {
    var raw := "```json{}```";
    assert StartsWith(raw, JsonFence);
    assert raw[7..] == "{}```";
    ClosingFenceRemoved();
  }

  /** The closing fence after the JSON body is deleted. */
  lemma ClosingFenceRemoved()
    ensures RemoveFenceTokens("{}```") == "{}"
  {
    assert RemoveFenceTokens("```") == "";
    assert RemoveFenceTokens("}```") == "}";
  }

  // ---------------------------------------------------------------------
  // Parse, then repair once, in `parse_resume_text_from_fileobj`
  // ---------------------------------------------------------------------

  /** The two model calls and the JSON decoder, as functions of the text
      they are given. `extract` answers the extraction prompt built around
      the résumé text; `repair` answers the repair prompt built around the
      first answer; `loads` is `json.loads`, `None` for a decode error. */
  datatype ResumeModel = ResumeModel(
    extract: string -> string,
    repair: string -> string,
    loads: string -> Option<Json>)

  /** Which prompt was sent, identified by the text it embeds. */
  datatype ModelRequest = ExtractRequest(resumeText: string) | RepairRequest(firstReply: string)

  const TwiceInvalid := "OpenAI returned invalid JSON twice."

  /** The dictionary returned when neither answer decodes. */
  function ErrorRecord(raw: string, fixed: string): Json {
    JObject(map["error" := JString(TwiceInvalid), "raw_output" := JString(raw), "fixed_output" := JString(fixed)])
  }

  /** `.strip()` on the model's answer, then the fence handling. */
  function CleanReply(reply: string): (r: string)
    ensures StartsWith(Strip(reply), Fence) ==> NoFence(r)
    ensures Trimmed(r)
  {
    StripTrimmed(Strip(reply));
    StripFences(Strip(reply))
  }

  /** `parse_resume_text_from_fileobj` after the PDF has been read into pages:
      the decoded JSON and the prompts sent, in order. */
  function ParseResume(model: ResumeModel, pages: seq<string>): (r: (Json, seq<ModelRequest>))
    ensures var text := ExtractText(pages);
      var raw := CleanReply(model.extract(text));
      && 1 <= |r.1| <= 2 && r.1[0] == ExtractRequest(text)
      && (model.loads(raw).Some? ==> r == (model.loads(raw).value, [ExtractRequest(text)]))
      && (model.loads(raw).None? ==> r.1 == [ExtractRequest(text), RepairRequest(raw)])
    ensures var raw := CleanReply(model.extract(ExtractText(pages)));
      var fixed := CleanReply(model.repair(raw));
      model.loads(raw).None? ==>
        r.0 == (if model.loads(fixed).Some? then model.loads(fixed).value else ErrorRecord(raw, fixed))
  {
    var text := ExtractText(pages);
    var raw := CleanReply(model.extract(text));
    match model.loads(raw)
    case Some(data) => (data, [ExtractRequest(text)])
    case None =>
      var fixed := CleanReply(model.repair(raw));
      match model.loads(fixed)
      case Some(data) => (data, [ExtractRequest(text), RepairRequest(raw)])
      case None => (ErrorRecord(raw, fixed), [ExtractRequest(text), RepairRequest(raw)])
  }

  /** The repair prompt is sent exactly when the first answer does not
      decode; when the repaired answer does not decode either, the result is
      the error record carrying both cleaned answers. */
  lemma RepairPolicy(model: ResumeModel, pages: seq<string>)
    ensures var raw := CleanReply(model.extract(ExtractText(pages)));
      |ParseResume(model, pages).1| == 2 <==> model.loads(raw).None?
    ensures var raw := CleanReply(model.extract(ExtractText(pages)));
      var fixed := CleanReply(model.repair(raw));
      model.loads(raw).None? && model.loads(fixed).None? ==>
        && ParseResume(model, pages).0 == ErrorRecord(raw, fixed)
        && Trimmed(raw) && Trimmed(fixed)
  {
  }

  // ---------------------------------------------------------------------
  // Question numbering in `generate_questions_from_resume`
  // ---------------------------------------------------------------------

  const DefaultPage := 1
  const DefaultPageSize := 10

  /** The question numbers one page asks for, `start` to `end` inclusive. */
  datatype NumberRange = NumberRange(first: int, last: int)

  /** `start = (page - 1) * page_size + 1; end = start + page_size - 1`. */
  function PageRange(page: int, pageSize: int): (r: NumberRange)
    ensures r.last - r.first + 1 == pageSize
  {
    var start := (page - 1) * pageSize + 1;
    NumberRange(start, start + pageSize - 1)
  }

  /** The defaults ask for questions 1 to 10. */
  lemma DefaultRange()
    ensures PageRange(DefaultPage, DefaultPageSize) == NumberRange(1, 10)
  {
  }

  /** Consecutive pages are adjacent: page p + 1 starts right after page p. */
  lemma NextPageFollows(page: int, pageSize: int)
    ensures PageRange(page + 1, pageSize).first == PageRange(page, pageSize).last + 1
  {
    assert page * pageSize == (page - 1) * pageSize + pageSize;
  }

  lemma MulMono(a: int, b: int, c: nat)
    requires a <= b
    ensures a * c <= b * c
  {
    assert b * c - a * c == (b - a) * c;
  }

  /** With a positive page size, pages 1, 2, ... cover the positive question
      numbers without overlap: number n is on page (n - 1) / size + 1 and on
      no other. */
  lemma PagesPartition(n: int, page: int, pageSize: int)
    requires n >= 1 && pageSize >= 1
    ensures PageRange(page, pageSize).first <= n <= PageRange(page, pageSize).last
      <==> page == (n - 1) / pageSize + 1
  {
    var q := (n - 1) / pageSize;
    assert q * pageSize <= n - 1 < q * pageSize + pageSize;
    if page <= q {
      MulMono(page, q, pageSize);
      assert PageRange(page, pageSize).last == page * pageSize;
    } else if page >= q + 2 {
      MulMono(q + 1, page - 1, pageSize);
      assert PageRange(page, pageSize).first == (page - 1) * pageSize + 1;
    } else {
      assert page - 1 == q;
    }
  }

  // ---------------------------------------------------------------------
  // Numbered-line extraction in `generate_questions_from_resume`
  // ---------------------------------------------------------------------

  /** ASCII decimal digit (the model leaves out other Unicode digits that
      `\d` also matches). */
  predicate IsDigit(c: char) {
    '0' <= c <= '9'
  }

  /** How many decimal digits `s` starts with. */
  function LeadingDigits(s: string): (n: nat)
    ensures n <= |s|
    ensures forall i :: 0 <= i < n ==> IsDigit(s[i])
    ensures n < |s| ==> !IsDigit(s[n])
    decreases |s|
  {
    if |s| > 0 && IsDigit(s[0]) then 1 + LeadingDigits(s[1..]) else 0
  }

  /** `re.match(r"^\d+\.\s", line)`: digits, a dot, then a whitespace character. */
  predicate Numbered(line: string) {
    var n := LeadingDigits(line);
    0 < n && n + 1 < |line| && line[n] == '.' && IsSpace(line[n + 1])
  }

  /** The pattern matches with the digit run ending at `n`. */
  predicate NumberedAt(line: string, n: int) {
    && 0 < n && n + 1 < |line|
    && (forall i :: 0 <= i < n ==> IsDigit(line[i]))
    && line[n] == '.' && IsSpace(line[n + 1])
  }

  /** `Numbered` agrees with the pattern read with backtracking: some
      non-empty run of digits is followed by a dot and whitespace. Since a dot
      is not a digit, the only candidate run is the longest one. */
  lemma NumberedIff(line: string)
    ensures Numbered(line) <==> exists n :: NumberedAt(line, n)
  {
    var m := LeadingDigits(line);
    if Numbered(line) {
      assert NumberedAt(line, m);
    }
    if exists n :: NumberedAt(line, n) {
      var n :| NumberedAt(line, n);
      assert !IsDigit(line[n]);
      assert n == m;
    }
  }

  const DotSpace := ". "

  /** `line.split(". ", 1)[1]`: the text after the first ". ", or `None`
      where Python raises IndexError because there is no ". ". */
  function AfterDotSpace(line: string): (r: Option<string>)
    ensures r.None? <==> forall k :: !OccursAt(line, DotSpace, k)
    ensures r.Some? ==> exists k: nat ::
      && OccursAt(line, DotSpace, k)
      && (forall j :: 0 <= j < k ==> !OccursAt(line, DotSpace, j))
      && r.value == line[k + 2..]
  {
    match FindFrom(line, DotSpace, 0)
    case None => None
    case Some(k) => Some(line[k + 2..])
  }

  /** The numbered lines, in their original order. */
  function Kept(lines: seq<string>): (kept: seq<string>)
    ensures |kept| <= |lines|
    ensures forall l :: l in kept <==> l in lines && Numbered(l)
  {
    if |lines| == 0 then []
    else
      var last := lines[|lines| - 1];
      var init := lines[..|lines| - 1];
      assert lines == init + [last];
      Kept(init) + (if Numbered(last) then [last] else [])
  }

  /** Keeping distributes over concatenation, so order is preserved. */
  lemma {:induction false} KeptConcat(a: seq<string>, b: seq<string>)
    ensures Kept(a + b) == Kept(a) + Kept(b)
    decreases |b|
  {
    if |b| == 0 {
      assert a + b == a;
    } else {
      var init, last := b[..|b| - 1], b[|b| - 1];
      var tail := if Numbered(last) then [last] else [];
      ConcatInit(a, b);
      assert (a + b)[|a + b| - 1] == last;
      assert Kept(a + b) == Kept(a + init) + tail;
      KeptConcat(a, init);
      Regroup(Kept(a), Kept(init), tail);
    }
  }

  /** The loop over output lines: every numbered line contributes its text
      after the first ". ", in order; a numbered line without ". " fails the
      whole extraction with that line. */
  function Questions(lines: seq<string>): Result<seq<string>, string> {
    if |lines| == 0 then Success([])
    else match Questions(lines[..|lines| - 1])
      case Failure(line) => Failure(line)
      case Success(qs) =>
        var last := lines[|lines| - 1];
        if !Numbered(last) then Success(qs)
        else match AfterDotSpace(last)
          case None => Failure(last)
          case Some(q) => Success(qs + [q])
  }

  /** `Questions` succeeds exactly when every kept line has a ". ", and then
      gives one question per kept line, in order, so never more questions
      than lines. */
  lemma {:induction false} QuestionsOfKept(lines: seq<string>)
    ensures Questions(lines).Success? <==> forall l :: l in Kept(lines) ==> AfterDotSpace(l).Some?
    ensures Questions(lines).Success? ==>
      var qs := Questions(lines).value;
      && |qs| == |Kept(lines)| <= |lines|
      && forall j :: 0 <= j < |qs| ==> AfterDotSpace(Kept(lines)[j]) == Some(qs[j])
    ensures Questions(lines).Failure? ==>
      var bad := Questions(lines).error;
      bad in Kept(lines) && AfterDotSpace(bad).None?
  {
    SuccessMatchesKept(lines);
    FailureNamesKept(lines);
    if Questions(lines).Success? {
      var qs := Questions(lines).value;
      forall l | l in Kept(lines)
        ensures AfterDotSpace(l).Some?
      {
        var j :| 0 <= j < |Kept(lines)| && Kept(lines)[j] == l;
        assert AfterDotSpace(Kept(lines)[j]) == Some(qs[j]);
      }
    }
  }

  /** Question `j` is the text after the first ". " of kept line `j`. */
  predicate MatchesKept(kept: seq<string>, qs: seq<string>) {
    |qs| == |kept| && forall j :: 0 <= j < |qs| ==> AfterDotSpace(kept[j]) == Some(qs[j])
  }

  lemma MatchesAppend(kept: seq<string>, qs: seq<string>, last: string, q: string)
    requires MatchesKept(kept, qs) && AfterDotSpace(last) == Some(q)
    ensures MatchesKept(kept + [last], qs + [q])
  {
  }

  /** A successful extraction has one question per kept line, in order. */
  lemma {:induction false} SuccessMatchesKept(lines: seq<string>)
    ensures Questions(lines).Success? ==> MatchesKept(Kept(lines), Questions(lines).value)
    decreases |lines|
  {
    if |lines| > 0 {
      var init := lines[..|lines| - 1];
      var last := lines[|lines| - 1];
      InitLast(lines);
      SuccessMatchesKept(init);
      KeptConcat(init, [last]);
      QuestionsAppend(init, last);
      if Questions(lines).Success? {
        if Numbered(last) {
          assert Kept([last]) == [last];
          MatchesAppend(Kept(init), Questions(init).value, last, AfterDotSpace(last).value);
        } else {
          assert Kept([last]) == [];
          assert Kept(lines) == Kept(init);
        }
      }
    }
  }

  /** A failed extraction names a kept line that has no ". ". */
  lemma {:induction false} FailureNamesKept(lines: seq<string>)
    ensures Questions(lines).Failure? ==>
      var bad := Questions(lines).error;
      bad in Kept(lines) && AfterDotSpace(bad).None?
    decreases |lines|
  {
    if |lines| > 0 {
      var init := lines[..|lines| - 1];
      var last := lines[|lines| - 1];
      InitLast(lines);
      FailureNamesKept(init);
      QuestionsAppend(init, last);
    }
  }

  /** One more line either fails, adds its question, or changes nothing. */
  lemma QuestionsAppend(init: seq<string>, last: string)
    ensures Questions(init).Failure? ==> Questions(init + [last]) == Questions(init)
    ensures Questions(init).Success? && !Numbered(last) ==> Questions(init + [last]) == Questions(init)
    ensures Questions(init).Success? && Numbered(last) && AfterDotSpace(last).None? ==>
      Questions(init + [last]) == Failure(last)
    ensures Questions(init).Success? && Numbered(last) && AfterDotSpace(last).Some? ==>
      Questions(init + [last]) == Success(Questions(init).value + [AfterDotSpace(last).value])
  {
    assert (init + [last])[..|init|] == init;
  }

  /** Once a prefix of the lines fails, the whole extraction fails the same way. */
  lemma {:induction false} FailurePersists(lines: seq<string>, k: nat)
    requires k <= |lines| && Questions(lines[..k]).Failure?
    ensures Questions(lines) == Questions(lines[..k])
    decreases |lines| - k
  {
    if k < |lines| {
      assert lines[..k + 1][..k] == lines[..k];
      FailurePersists(lines, k + 1);
    } else {
      assert lines[..k] == lines;
    }
  }

  /** The loop of `generate_questions_from_resume` over `output.split("\n")`. */
  method ExtractQuestions(output: string) returns (r: Result<seq<string>, string>)
    ensures r == Questions(Split(output, "\n"))
  {
    var lines := Split(output, "\n");
    var questions: seq<string> := [];
    var i := 0;
    while i < |lines|
      invariant 0 <= i <= |lines|
      invariant Questions(lines[..i]) == Success(questions)
    {
      var line := lines[i];
      assert lines[..i + 1][..i] == lines[..i];
      if Numbered(line) {
        var q := AfterDotSpace(line);
        if q.None? {
          FailurePersists(lines, i + 1);
          return Failure(line);
        }
        questions := questions + [q.value];
      }
      i := i + 1;
    }
    assert lines[..i] == lines;
    return Success(questions);
  }

  /** `str(n)` for a natural number. */
  function Decimal(n: nat): (d: string)
    ensures |d| > 0 && forall i :: 0 <= i < |d| ==> IsDigit(d[i])
  {
    var digit := ['0' + (n % 10) as char];
    if n < 10 then digit else Decimal(n / 10) + digit
  }

  /** One line of the format the prompt asks for: "N. question". */
  function NumberedLine(number: nat, question: string): string {
    Decimal(number) + DotSpace + question
  }

  /** The reply the prompt asks for: questions numbered from `first`, one per line. */
  function Render(first: nat, questions: seq<string>): string {
    Join(RenderedLines(first, questions), "\n")
  }

  /** The lines of the requested reply, before they are joined. */
  function RenderedLines(first: nat, questions: seq<string>): (lines: seq<string>)
    ensures |lines| == |questions|
  {
    seq(|questions|, j requires 0 <= j < |questions| => NumberedLine(first + j, questions[j]))
  }

  lemma LineRoundTrip(number: nat, question: string)
    ensures Numbered(NumberedLine(number, question))
    ensures AfterDotSpace(NumberedLine(number, question)) == Some(question)
  {
    var d := Decimal(number);
    var line := NumberedLine(number, question);
    assert line[|d|] == '.' && line[|d| + 1] == ' ';
    assert LeadingDigits(line) == |d| by {
      LeadingDigitsPrefix(d, line);
    }
    forall k: nat | 0 <= k
      ensures !OccursAt(d, DotSpace, k)
    {
      if k + 2 <= |d| {
        assert d[k..k + 2][0] == d[k];
      }
    }
    FirstCharUniqueUnbordered(DotSpace);
    FindAtJunction(d, DotSpace, question, 0);
    assert line[|d| + 2..] == question;
  }

  lemma {:induction false} LeadingDigitsPrefix(d: string, line: string)
    requires |d| < |line| && d == line[..|d|] && !IsDigit(line[|d|])
    requires forall i :: 0 <= i < |d| ==> IsDigit(d[i])
    ensures LeadingDigits(line) == |d|
    decreases |d|
  {
    if |d| > 0 {
      LeadingDigitsPrefix(d[1..], line[1..]);
    }
  }

  /** Every line is numbered and its question is the matching entry of `qs`. */
  predicate EachParses(lines: seq<string>, qs: seq<string>) {
    |lines| == |qs| && forall j :: 0 <= j < |lines| ==> Numbered(lines[j]) && AfterDotSpace(lines[j]) == Some(qs[j])
  }

  lemma EachParsesInit(lines: seq<string>, qs: seq<string>)
    requires EachParses(lines, qs) && |lines| > 0
    ensures EachParses(lines[..|lines| - 1], qs[..|qs| - 1])
  {
    var n := |lines| - 1;
    forall j | 0 <= j < n
      ensures Numbered(lines[..n][j]) && AfterDotSpace(lines[..n][j]) == Some(qs[..n][j])
    {
      assert lines[..n][j] == lines[j] && qs[..n][j] == qs[j];
    }
  }

  lemma {:induction false} QuestionsOfNumbered(lines: seq<string>, qs: seq<string>)
    requires EachParses(lines, qs)
    ensures Questions(lines) == Success(qs)
    decreases |lines|
  {
    if |lines| > 0 {
      var n := |lines| - 1;
      var init, qinit := lines[..n], qs[..n];
      EachParsesInit(lines, qs);
      QuestionsOfNumbered(init, qinit);
      QuestionsLastParsed(lines, qs);
    }
  }

  /** A numbered last line with a ". " adds its question after the others'. */
  lemma QuestionsLastParsed(lines: seq<string>, qs: seq<string>)
    requires |lines| == |qs| > 0
    requires Questions(lines[..|lines| - 1]) == Success(qs[..|qs| - 1])
    requires Numbered(lines[|lines| - 1]) && AfterDotSpace(lines[|lines| - 1]) == Some(qs[|qs| - 1])
    ensures Questions(lines) == Success(qs)
  {
    var n := |lines| - 1;
    var prev, q := qs[..n], qs[n];
    assert Questions(lines) == Success(prev + [q]);
    InitLast(qs);
  }

  /** A reply in exactly the requested format gives back its questions, as
      long as no question spans several lines. */
  lemma RenderRoundTrip(first: nat, questions: seq<string>)
    requires forall j :: 0 <= j < |questions| ==> '\n' !in questions[j]
    ensures Questions(Split(Render(first, questions), "\n")) == Success(questions)
  {
    var lines := RenderedLines(first, questions);
    if |questions| == 0 {
      assert Split(Render(first, questions), "\n") == [""];
      assert Questions([""]) == Success([]);
    } else {
      RenderedLinesParse(first, questions);
      SplitJoinChar(lines, '\n');
      assert EachParses(lines, questions);
      QuestionsOfNumbered(lines, questions);
    }
  }

  /** A single numbered line whose question is `q`. */
  predicate ParsesTo(line: string, q: string) {
    '\n' !in line && Numbered(line) && AfterDotSpace(line) == Some(q)
  }

  /** Every rendered line is a single numbered line whose question comes back. */
  lemma RenderedLinesParse(first: nat, questions: seq<string>)
    requires forall j :: 0 <= j < |questions| ==> '\n' !in questions[j]
    ensures forall j :: 0 <= j < |questions| ==> ParsesTo(RenderedLines(first, questions)[j], questions[j])
  {
    var lines := RenderedLines(first, questions);
    forall j | 0 <= j < |questions|
      ensures ParsesTo(lines[j], questions[j])
    {
      assert lines[j] == NumberedLine(first + j, questions[j]);
      SingleLineParses(first + j, questions[j]);
    }
  }

  lemma SingleLineParses(number: nat, question: string)
    requires '\n' !in question
    ensures ParsesTo(NumberedLine(number, question), question)
  {
    LineRoundTrip(number, question);
    var d := Decimal(number);
    assert forall i :: 0 <= i < |d| ==> d[i] != '\n';
  }

  /** The model call: the prompt carries the page's number range and the
      interview settings. */
  datatype QuestionRequest = QuestionRequest(
    resume: string, jobRole: string, difficulty: string, interviewType: string, range: NumberRange)

  /** `generate_questions_from_resume`: the request sent and the questions
      picked out of the stripped reply. */
  function GenerateQuestions(ask: QuestionRequest -> string, resume: string, jobRole: string,
                             difficulty: string, interviewType: string, page: int, pageSize: int)
    : (r: (QuestionRequest, Result<seq<string>, string>))
    ensures r.0.range.last - r.0.range.first + 1 == pageSize
    ensures r.0 == QuestionRequest(resume, jobRole, difficulty, interviewType, PageRange(page, pageSize))
    ensures r.1.Success? ==> |r.1.value| <= |Split(Strip(ask(r.0)), "\n")|
    // the reply is read by the numbered-line extraction, over its stripped lines
    ensures r.1 == Questions(Split(Strip(ask(r.0)), "\n"))
  {
    var request := QuestionRequest(resume, jobRole, difficulty, interviewType, PageRange(page, pageSize));
    var lines := Split(Strip(ask(request)), "\n");
    QuestionsOfKept(lines);
    (request, Questions(lines))
  }
}

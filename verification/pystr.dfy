/** The handful of Python `str` operations the backend relies on, with the
    meaning Python gives them: `isspace`, `strip`, `find`, `in`, `split`,
    `join`, `startswith` and (ASCII) `lower`. Strings are `seq<char>`. */
module PyStr {
  import opened Wrappers

  /** Python's `str.isspace` for one character. The same set is what the
      regular-expression class `\s` matches on `str` patterns and what
      `str.strip()` removes. */
  predicate IsSpace(c: char) {
    || c == ' '
    || '\t' <= c <= '\r'
    || '\U{1c}' <= c <= '\U{1f}'
    || c == '\U{85}'
    || c == '\U{a0}'
    || c == '\U{1680}'
    || '\U{2000}' <= c <= '\U{200a}'
    || c == '\U{2028}'
    || c == '\U{2029}'
    || c == '\U{202f}'
    || c == '\U{205f}'
    || c == '\U{3000}'
  }

  predicate AllSpace(s: string) {
    forall i :: 0 <= i < |s| ==> IsSpace(s[i])
  }

  /** Neither starts nor ends with whitespace: what `strip()` returns. */
  predicate Trimmed(s: string) {
    |s| == 0 || (!IsSpace(s[0]) && !IsSpace(s[|s| - 1]))
  }

  function LStrip(s: string): (r: string)
    ensures |r| <= |s|
    ensures |r| > 0 ==> !IsSpace(r[0])
  {
    if |s| > 0 && IsSpace(s[0]) then LStrip(s[1..]) else s
  }

  /** `lstrip()` removes a whitespace prefix and keeps the rest. */
  lemma {:induction false} LStripSlice(s: string)
    ensures LStrip(s) == s[|s| - |LStrip(s)|..]
    ensures AllSpace(s[..|s| - |LStrip(s)|])
    decreases |s|
  {
    if |s| > 0 && IsSpace(s[0]) {
      var t := s[1..];
      LStripSlice(t);
      var k := |t| - |LStrip(t)|;
      var m := k + 1;
      assert s[|s| - |LStrip(s)|..] == t[k..];
      forall i | 0 <= i < m
        ensures IsSpace(s[..m][i])
      {
        if i > 0 {
          assert s[..m][i] == t[..k][i - 1];
        }
      }
    }
  }

  function RStrip(s: string): (r: string)
    ensures |r| <= |s|
    ensures |r| > 0 ==> !IsSpace(r[|r| - 1])
  {
    if |s| > 0 && IsSpace(s[|s| - 1]) then RStrip(s[..|s| - 1]) else s
  }

  /** `rstrip()` removes a whitespace suffix and keeps the rest. */
  lemma {:induction false} RStripSlice(s: string)
    ensures RStrip(s) == s[..|RStrip(s)|]
    ensures AllSpace(s[|RStrip(s)|..])
    decreases |s|
  {
    if |s| > 0 && IsSpace(s[|s| - 1]) {
      var t := s[..|s| - 1];
      RStripSlice(t);
      var n := |RStrip(t)|;
      assert s[..n] == t[..n];
      forall i | 0 <= i < |s| - n
        ensures IsSpace(s[n..][i])
      {
        if i < |t| - n {
          assert s[n..][i] == t[n..][i];
        }
      }
    }
  }

  /** Number of whitespace characters `strip()` removes at the front. */
  function LeadingSpaces(s: string): (n: nat)
    ensures n <= |s|
  {
    |s| - |LStrip(s)|
  }

  /** `s.strip()`: the slice of `s` left after removing whitespace at both
      ends. */
  function Strip(s: string): (r: string)
    ensures Trimmed(r)
    ensures |r| <= |s|
  {
    RStripSlice(LStrip(s));
    RStrip(LStrip(s))
  }

  /** What `strip()` removes is whitespace at both ends, and what it keeps
      is the slice in between. */
  lemma StripSlice(s: string)
    ensures LeadingSpaces(s) + |Strip(s)| <= |s|
    ensures Strip(s) == s[LeadingSpaces(s)..LeadingSpaces(s) + |Strip(s)|]
    ensures AllSpace(s[..LeadingSpaces(s)]) && AllSpace(s[LeadingSpaces(s) + |Strip(s)|..])
  {
    var l := LStrip(s);
    var r := RStrip(l);
    var n := LeadingSpaces(s);
    LStripSlice(s);
    RStripSlice(l);
    SuffixPrefix(s, n, |r|);
    SuffixSuffix(s, n, |r|);
  }

  /** Stripping a string that is already trimmed changes nothing. */
  lemma StripTrimmed(s: string)
    requires Trimmed(s)
    ensures Strip(s) == s
  {
  }

  /** Stripping yields the empty string exactly for all-whitespace input. */
  lemma StripEmpty(s: string)
    ensures Strip(s) == "" <==> AllSpace(s)
  {
    var l := LStrip(s);
    LStripSlice(s);
    RStripSlice(l);
    var n := |s| - |l|;
    if Strip(s) == "" {
      assert l[0..] == l;
      assert |l| == 0;
      assert s[..n] == s;
    }
  }

  /** True when `pat` occurs in `s` starting at index `k`. */
  predicate OccursAt(s: string, pat: string, k: nat) {
    k + |pat| <= |s| && s[k..k + |pat|] == pat
  }

  /** `s.find(pat, from)`, with `None` for Python's -1. */
  function FindFrom(s: string, pat: string, from: nat): (r: Option<nat>)
    ensures r.Some? ==> from <= r.value && OccursAt(s, pat, r.value)
    ensures r.Some? ==> forall k :: from <= k < r.value ==> !OccursAt(s, pat, k)
    ensures r.None? ==> forall k :: from <= k ==> !OccursAt(s, pat, k)
    decreases |s| - from
  {
    if from + |pat| > |s| then None
    else if OccursAt(s, pat, from) then Some(from)
    else FindFrom(s, pat, from + 1)
  }

  /** Python's `pat in s`. */
  predicate Contains(s: string, pat: string) {
    FindFrom(s, pat, 0).Some?
  }

  /** `pat in s` holds exactly when `pat` occurs somewhere in `s`. */
  lemma ContainsIff(s: string, pat: string)
    ensures Contains(s, pat) <==> exists k :: OccursAt(s, pat, k)
  {
  }

  /** Python's `s.startswith(p)`. */
  predicate StartsWith(s: string, p: string) {
    OccursAt(s, p, 0)
  }

  /** `sep.join(parts)`. */
  function Join(parts: seq<string>, sep: string): (r: string)
    ensures |parts| == 1 ==> r == parts[0]
  {
    if |parts| == 0 then ""
    else if |parts| == 1 then parts[0]
    else parts[0] + sep + Join(parts[1..], sep)
  }

  /** `s.split(sep)` for a non-empty separator: the pieces between the
      leftmost non-overlapping occurrences of `sep`. */
  function Split(s: string, sep: string): (parts: seq<string>)
    requires |sep| > 0
    ensures |parts| >= 1
    ensures forall i, k :: 0 <= i < |parts| ==> !OccursAt(parts[i], sep, k)
    decreases |s|
  {
    match FindFrom(s, sep, 0)
    case None => [s]
    case Some(i) =>
      var head := s[..i];
      assert forall k :: !OccursAt(head, sep, k) by {
        forall k: nat | k + |sep| <= |head|
          ensures !OccursAt(head, sep, k)
        {
          SlicePrefix(s, i, k, k + |sep|);
          assert !OccursAt(s, sep, k);
        }
      }
      [head] + Split(s[i + |sep|..], sep)
  }

  function LowerChar(c: char): char {
    if 'A' <= c <= 'Z' then (c as int + 32) as char else c
  }

  /** `s.lower()` on ASCII letters; every other character is kept. */
  function Lower(s: string): (r: string)
    ensures |r| == |s|
    ensures forall i :: 0 <= i < |s| ==> r[i] == LowerChar(s[i])
  {
    seq(|s|, i requires 0 <= i < |s| => LowerChar(s[i]))
  }

  /** A pattern whose first character never recurs inside it cannot overlap
      itself, and cannot straddle the point where another copy begins. */
  predicate FirstCharUnique(pat: string) {
    |pat| > 0 && forall i :: 0 < i < |pat| ==> pat[i] != pat[0]
  }

  /** Joining the pieces of a split gives back the original string. */
  lemma {:induction false} JoinSplit(s: string, sep: string)
    requires |sep| > 0
    ensures Join(Split(s, sep), sep) == s
    decreases |s|
  {
    match FindFrom(s, sep, 0)
    case None =>
    case Some(i) =>
      var rest := s[i + |sep|..];
      var tail := Split(rest, sep);
      assert Split(s, sep) == [s[..i]] + tail;
      JoinSplit(rest, sep);
      assert ([s[..i]] + tail)[1..] == tail;
      calc {
        Join(Split(s, sep), sep);
        s[..i] + sep + Join(tail, sep);
        s[..i] + s[i..i + |sep|] + rest;
        s;
      }
  }

  /** With a one-character separator, the first occurrence is the first index
      holding that character. */
  lemma FindCharAfter(a: string, c: char, b: string)
    requires c !in a
    ensures FindFrom(a + [c] + b, [c], 0) == Some(|a|)
  {
    var t := a + [c] + b;
    assert OccursAt(t, [c], |a|) by { assert t[|a|..|a| + 1] == [c]; }
    forall k: nat | k < |a|
      ensures !OccursAt(t, [c], k)
    {
      assert t[k..k + 1][0] == a[k] != c;
    }
  }

  lemma FindCharBefore(a: string, c: char, b: string, i: nat)
    requires FindFrom(a, [c], 0) == Some(i)
    ensures FindFrom(a + b, [c], 0) == Some(i)
  {
    var t := a + b;
    assert a[i..i + 1] == [c];
    assert t[i..i + 1] == [c];
    assert OccursAt(t, [c], i);
    forall k: nat | k < i
      ensures !OccursAt(t, [c], k)
    {
      assert !OccursAt(a, [c], k);
      assert t[k..k + 1] == a[k..k + 1];
    }
  }

  /** Splitting on a character that none of the parts contain recovers the
      parts from their join. */
  lemma {:induction false} SplitJoinChar(parts: seq<string>, c: char)
    requires |parts| >= 1
    requires forall i :: 0 <= i < |parts| ==> c !in parts[i]
    ensures Split(Join(parts, [c]), [c]) == parts
    decreases |parts|
  {
    if |parts| == 1 {
      var p := parts[0];
      forall k: nat | k < |p|
        ensures !OccursAt(p, [c], k)
      {
        assert p[k..k + 1][0] == p[k] != c;
      }
    } else {
      var rest := Join(parts[1..], [c]);
      var t := parts[0] + [c] + rest;
      assert Join(parts, [c]) == t;
      FindCharAfter(parts[0], c, rest);
      JunctionSides(parts[0], c, rest);
      SplitJoinChar(parts[1..], c);
      HeadTail(parts);
    }
  }

  /** Splitting on a character distributes over a join at that character. */
  lemma {:induction false} SplitAppendChar(a: string, c: char, b: string)
    ensures Split(a + [c] + b, [c]) == Split(a, [c]) + Split(b, [c])
    decreases |a|
  {
    var t := a + [c] + b;
    match FindFrom(a, [c], 0)
    case None =>
      forall k | 0 <= k < |a|
        ensures a[k] != c
      {
        assert !OccursAt(a, [c], k);
        assert a[k..k + 1] == [a[k]];
      }
      FindCharAfter(a, c, b);
      JunctionSides(a, c, b);
    case Some(i) =>
      Regroup(a, [c], b);
      FindCharBefore(a, c, [c] + b, i);
      var a' := a[i + 1..];
      DropInFirst(a, [c] + b, i + 1);
      Regroup(a', [c], b);
      TakeInFirst(a, [c] + b, i);
      SplitAppendChar(a', c, b);
  }

  /** No proper non-empty suffix of the pattern is also a prefix of it, so
      two occurrences can never overlap. */
  predicate Unbordered(pat: string) {
    |pat| > 0 && forall m :: 0 < m < |pat| ==> pat[m..] != pat[..|pat| - m]
  }

  lemma FirstCharUniqueUnbordered(pat: string)
    requires FirstCharUnique(pat)
    ensures Unbordered(pat)
  {
    forall m | 0 < m < |pat|
      ensures pat[m..] != pat[..|pat| - m]
    {
      assert pat[m..][0] == pat[m] != pat[0] == pat[..|pat| - m][0];
    }
  }

  /** A pattern whose last character occurs nowhere else is unbordered. */
  lemma LastCharUniqueUnbordered(pat: string)
    requires |pat| > 0 && forall i :: 0 <= i < |pat| - 1 ==> pat[i] != pat[|pat| - 1]
    ensures Unbordered(pat)
  {
    forall m | 0 < m < |pat|
      ensures pat[m..] != pat[..|pat| - m]
    {
      var n := |pat| - m;
      assert pat[m..][n - 1] == pat[|pat| - 1] != pat[n - 1] == pat[..n][n - 1];
    }
  }

  /** Finding an unbordered pattern at the junction where it is appended: no
      earlier occurrence can straddle into it. */
  lemma FindAtJunction(pre: string, pat: string, post: string, from: nat)
    requires Unbordered(pat)
    requires from <= |pre|
    requires forall k :: from <= k ==> !OccursAt(pre, pat, k)
    ensures FindFrom(pre + pat + post, pat, from) == Some(|pre|)
  {
    var t := pre + pat + post;
    assert t[|pre|..|pre| + |pat|] == pat;
    assert OccursAt(t, pat, |pre|);
    forall k: nat | from <= k < |pre|
      ensures !OccursAt(t, pat, k)
    {
      if k + |pat| <= |pre| {
        assert pre[k..k + |pat|] == t[k..k + |pat|];
        assert !OccursAt(pre, pat, k);
      } else {
        StraddleBorder(t, pat, |pre|, k);
      }
    }
  }

  /** An occurrence starting inside another would make a border. */
  lemma StraddleBorder(t: string, pat: string, p: nat, k: nat)
    requires Unbordered(pat) && OccursAt(t, pat, p)
    requires k < p < k + |pat|
    ensures !OccursAt(t, pat, k)
  {
    var m := p - k;
    var n := |pat| - m;
    assert t[p..p + |pat|][..n] == t[p..p + n];
    assert t[k..k + |pat|][m..] == t[p..p + n];
    assert pat[m..] != pat[..n];
  }

  /** An occurrence of a pattern with a unique first character rules out any
      other occurrence starting inside it. */
  lemma NoOverlap(s: string, pat: string, p: nat, k: nat)
    requires FirstCharUnique(pat)
    requires OccursAt(s, pat, p)
    requires p < k < p + |pat|
    ensures !OccursAt(s, pat, k)
  {
    assert s[k] == s[p..p + |pat|][k - p] == pat[k - p] != pat[0];
    assert k + |pat| > |s| || s[k..k + |pat|][0] == s[k];
  }

  /** `RStrip` never cuts into a prefix that ends in a non-space. */
  lemma {:induction false} RStripKeeps(s: string, n: nat)
    requires n <= |s| && (n > 0 ==> !IsSpace(s[n - 1]))
    ensures n <= |RStrip(s)| && RStrip(s)[..n] == s[..n]
    decreases |s|
  {
    if |s| > n && IsSpace(s[|s| - 1]) {
      var s' := s[..|s| - 1];
      assert s'[..n] == s[..n];
      RStripKeeps(s', n);
    }
  }

  /** `RStrip` of a text whose tail holds a non-space never reaches the
      part in front of that tail. */
  lemma {:induction false} RStripAfter(a: string, c: string)
    requires !AllSpace(c)
    ensures RStrip(a + c) == a + RStrip(c)
    decreases |c|
  {
    if IsSpace(c[|c| - 1]) {
      var c' := c[..|c| - 1];
      assert !AllSpace(c') by {
        var i :| 0 <= i < |c| && !IsSpace(c[i]);
        assert c'[i] == c[i];
      }
      ConcatInit(a, c);
      RStripAfter(a, c');
    }
  }

  /** Stripping ignores one more leading space. */
  lemma StripAfterLeadingSpace(x: string)
    ensures Strip(" " + x) == Strip(x)
  {
    assert (" " + x)[1..] == x;
    assert LStrip(" " + x) == LStrip(x);
  }

  /** `RStrip` removes exactly an all-whitespace tail after a part that ends
      in a non-space. */
  lemma {:induction false} RStripSpaces(t: string, w: string)
    requires AllSpace(w)
    requires |t| > 0 ==> !IsSpace(t[|t| - 1])
    ensures RStrip(t + w) == t
    decreases |w|
  {
    if |w| > 0 {
      var w' := w[..|w| - 1];
      ConcatInit(t, w);
      RStripSpaces(t, w');
    } else {
      assert t + w == t;
    }
  }

  /** Stripping a stripped string followed by whitespace gives it back. */
  lemma StripTrailingSpaces(t: string, w: string)
    requires Trimmed(t) && AllSpace(w)
    ensures Strip(t + w) == t
  {
    if t == "" {
      assert t + w == w;
      StripEmpty(w);
    } else {
      assert LStrip(t + w) == t + w;
      RStripSpaces(t, w);
    }
  }

  /** Joining two non-empty lists is joining each and gluing the halves with
      one separator. */
  lemma {:induction false} JoinConcat(a: seq<string>, b: seq<string>, sep: string)
    requires |a| > 0 && |b| > 0
    ensures Join(a + b, sep) == Join(a, sep) + sep + Join(b, sep)
    decreases |a|
  {
    if |a| == 1 {
      assert (a + b)[1..] == b;
    } else {
      DropInFirst(a, b, 1);
      JoinConcat(a[1..], b, sep);
    }
  }

  /** `s.replace(pat, repl)` for a non-empty `pat`: every leftmost
      non-overlapping occurrence replaced. */
  function Replace(s: string, pat: string, repl: string): (r: string)
    requires |pat| > 0
    ensures (forall k :: !OccursAt(s, pat, k)) ==> r == s
  {
    Join(Split(s, pat), repl)
  }

  /** A slice lying inside the right operand of a concatenation. */
  lemma SliceRight<T>(a: seq<T>, b: seq<T>, i: nat, j: nat)
    requires |a| <= i <= j <= |a| + |b|
    ensures (a + b)[i..j] == b[i - |a|..j - |a|]
  {
  }

  /** A slice lying inside the left operand of a concatenation. */
  lemma SliceLeft<T>(a: seq<T>, b: seq<T>, i: nat, j: nat)
    requires i <= j <= |a|
    ensures (a + b)[i..j] == a[i..j]
  {
  }

  /** A shared prefix does not change whether one text starts with another. */
  lemma StartsWithAfter(p: string, t: string, q: string)
    ensures StartsWith(p + t, p + q) <==> StartsWith(t, q)
  {
    if |q| <= |t| {
      assert (p + t)[..|p| + |q|] == p + t[..|q|];
      if p + t[..|q|] == p + q {
        assert t[..|q|] == (p + t[..|q|])[|p|..];
        assert q == (p + q)[|p|..];
      }
    }
  }

  /** The first `n` elements are the head followed by the tail's first
      `n - 1`, and dropping `n` is dropping `n - 1` from the tail. */
  lemma ConsSlices<T>(s: seq<T>, n: nat)
    requires 1 <= n <= |s|
    ensures [s[0]] + s[1..][..n - 1] == s[..n]
    ensures s[1..][n - 1..] == s[n..]
  {
  }

  /** Concatenation regrouped to the right. */
  lemma Regroup<T>(a: seq<T>, b: seq<T>, c: seq<T>)
    ensures a + b + c == a + (b + c)
  {
  }

  /** A slice inside a prefix is the same slice of the whole. */
  lemma JunctionSides<T>(a: seq<T>, x: T, b: seq<T>)
    ensures (a + [x] + b)[..|a|] == a
    ensures (a + [x] + b)[|a| + 1..] == b
  {
  }

  lemma HeadTail<T>(s: seq<T>)
    requires |s| > 0
    ensures [s[0]] + s[1..] == s
  {
  }

  lemma DropInFirst<T>(a: seq<T>, b: seq<T>, k: nat)
    requires k <= |a|
    ensures (a + b)[k..] == a[k..] + b
  {
  }

  lemma TakeInFirst<T>(a: seq<T>, b: seq<T>, k: nat)
    requires k <= |a|
    ensures (a + b)[..k] == a[..k]
  {
  }

  lemma ConcatInit<T>(a: seq<T>, b: seq<T>)
    requires |b| > 0
    ensures (a + b)[..|a + b| - 1] == a + b[..|b| - 1]
  {
  }

  lemma ThreeWay<T>(s: seq<T>, a: nat, b: nat)
    requires a <= b <= |s|
    ensures s[..a] + s[a..b] + s[b..] == s
  {
  }

  lemma InitLast<T>(s: seq<T>)
    requires |s| > 0
    ensures s[..|s| - 1] + [s[|s| - 1]] == s
  {
  }

  lemma SuffixPrefix<T>(s: seq<T>, n: nat, i: nat)
    requires n + i <= |s|
    ensures s[n..][..i] == s[n..n + i]
  {
  }

  lemma SuffixSuffix<T>(s: seq<T>, n: nat, i: nat)
    requires n + i <= |s|
    ensures s[n..][i..] == s[n + i..]
  {
  }

  lemma SlicePrefix<T>(s: seq<T>, n: nat, i: nat, j: nat)
    requires i <= j <= n <= |s|
    ensures s[..n][i..j] == s[i..j]
  {
  }
}

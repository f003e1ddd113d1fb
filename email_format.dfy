/** The e-mail check `/^\w+([.-]?\w+)*@\w+([.-]?\w+)*(\.\w{2,3})+$/`, used by
    the employee controller and by the employee schema: a hand-written
    recognizer (`ValidEmail`), the regular expression read as a grammar
    (`MatchesEmailRegex`), and the proof that the two accept the same strings. */
module EmailFormat {
  import opened Optional
  import opened Text

  predicate IsSeparator(c: char) {
    c == '.' || c == '-'
  }

  predicate AllWord(s: string) {
    forall i :: 0 <= i < |s| ==> IsWordChar(s[i])
  }

  /** The language of `\w+([.-]?\w+)*`: runs of word characters joined by
      single `.` or `-` characters (the separator is optional, so a run may
      also continue a run). */
  predicate Segmented(s: string) {
    && |s| > 0
    && IsWordChar(s[0]) && IsWordChar(s[|s| - 1])
    && (forall i :: 0 <= i < |s| ==> SegmentedAt(s, i))
  }

  /** Position `i` holds a word character or a separator, and it and the
      next position do not both hold separators. */
  predicate SegmentedAt(s: string, i: int)
    requires 0 <= i < |s|
  {
    && (IsWordChar(s[i]) || IsSeparator(s[i]))
    && (i + 1 < |s| ==> IsWordChar(s[i]) || IsWordChar(s[i + 1]))
  }

  /** The recognizer: the text before the first `@` is segmented, and so is
      the domain after it. */
  predicate ValidEmail(s: string) {
    match IndexOf(s, '@')
    case None => false
    case Some(i) => Segmented(s[..i]) && ValidDomain(s[i + 1..])
  }

  /** The domain is a segmented name, then its last `.`, then 2 or 3 word characters. */
  predicate ValidDomain(d: string) {
    match LastIndexOf(d, '.')
    case None => false
    case Some(k) => Segmented(d[..k]) && 2 <= |d| - k - 1 <= 3 && AllWord(d[k + 1..])
  }

  /** `t` starts with one group `\.\w{n}`. */
  ghost predicate TldGroup(t: string, n: nat) {
    |t| >= n + 1 && t[0] == '.' && AllWord(t[1..n + 1])
  }

  /** `t` is a whole `(\.\w{2,3})+`. */
  ghost predicate TldGroups(t: string)
    decreases |t|
  {
    || (TldGroup(t, 2) && (|t| == 3 || TldGroups(t[3..])))
    || (TldGroup(t, 3) && (|t| == 4 || TldGroups(t[4..])))
  }

  /** `s` is `local@host` followed by top-level groups, split at positions `i` (the `@`) and `j`. */
  ghost predicate RegexSplit(s: string, i: int, j: int) {
    && 0 <= i < j <= |s|
    && s[i] == '@'
    && Segmented(s[..i])
    && Segmented(s[i + 1..j])
    && TldGroups(s[j..])
  }

  /** What `test` of the anchored regular expression answers. */
  ghost predicate MatchesEmailRegex(s: string) {
    exists i, j :: RegexSplit(s, i, j)
  }

  /** A position holding `c` with no `c` before it is what `IndexOf` finds. */
  lemma IndexOfIs(s: string, c: char, i: nat)
    requires i < |s| && s[i] == c && c !in s[..i]
    ensures IndexOf(s, c) == Some(i)
  {
  }

  /** A position holding `c` with no `c` after it is what `LastIndexOf` finds. */
  lemma LastIndexOfIs(s: string, c: char, k: nat)
    requires k < |s| && s[k] == c && c !in s[k + 1..]
    ensures LastIndexOf(s, c) == Some(k)
  {
  }

  /** Only word characters and separators occur in a segmented name. */
  lemma SegmentedExcludes(s: string, c: char)
    requires Segmented(s) && !IsWordChar(c) && !IsSeparator(c)
    ensures c !in s
  {
    forall i | 0 <= i < |s| ensures s[i] != c {
      assert SegmentedAt(s, i);
    }
  }

  lemma AllWordExcludes(s: string, c: char)
    requires AllWord(s) && !IsWordChar(c)
    ensures c !in s
  {
  }

  /** A segmented name followed by one `.xy` or `.xyz` group is segmented. */
  lemma SegmentedThenGroup(p: string, g: string)
    requires Segmented(p)
    requires |g| >= 2 && g[0] == '.' && AllWord(g[1..])
    ensures Segmented(p + g)
  {
    var s := p + g;
    forall i | 0 <= i < |s| ensures SegmentedAt(s, i) {
      if i < |p| {
        assert SegmentedAt(p, i);
        if i + 1 == |p| {
          assert IsWordChar(s[i]);
        }
      } else if i > |p| {
        assert s[i] == g[1..][i - |p| - 1];
      } else {
        assert s[i + 1] == g[1..][0];
      }
    }
    assert s[|s| - 1] == g[1..][|g| - 2];
  }

  /** Where the groups `(\.\w{2,3})+` after a segmented name `p` put the last
      `.`: at `k`, with 2 or 3 word characters after it and a segmented name
      before it. */
  lemma {:induction false} LastGroup(p: string, q: string) returns (k: nat)
    requires Segmented(p) && TldGroups(q)
    ensures k < |q| && q[k] == '.'
    ensures Segmented(p + q[..k])
    ensures 2 <= |q| - k - 1 <= 3 && AllWord(q[k + 1..])
    decreases |q|
  {
    var n: nat := if TldGroup(q, 2) && (|q| == 3 || TldGroups(q[3..])) then 2 else 3;
    assert TldGroup(q, n) && (|q| == n + 1 || TldGroups(q[n + 1..]));
    if |q| == n + 1 {
      k := 0;
      assert p + q[..0] == p;
      assert q[1..] == q[1..n + 1];
    } else {
      var g, rest := q[..n + 1], q[n + 1..];
      assert g[1..] == q[1..n + 1];
      SegmentedThenGroup(p, g);
      var k' := LastGroup(p + g, rest);
      k := n + 1 + k';
      assert q == g + rest;
      ConcatSlices(p, g, rest, k');
    }
  }

  lemma ConcatSlices(p: string, g: string, rest: string, k: nat)
    requires k < |rest|
    ensures p + (g + rest)[..|g| + k] == (p + g) + rest[..k]
    ensures (g + rest)[|g| + k + 1..] == rest[k + 1..]
  {
    assert (g + rest)[..|g| + k] == g + rest[..k];
  }

  /** Every address the recognizer accepts matches the regular expression. */
  lemma ValidEmailIsRegexMatch(s: string)
    requires ValidEmail(s)
    ensures MatchesEmailRegex(s)
  {
    var at, dot := EmailParts(s);
    assert s[dot..][1..] == s[dot + 1..];
    OneGroup(s[dot..]);
    assert RegexSplit(s, at, dot);
  }

  /** A single `.xy` or `.xyz` is a whole `(\.\w{2,3})+`. */
  lemma OneGroup(t: string)
    requires 3 <= |t| <= 4 && t[0] == '.' && AllWord(t[1..])
    ensures TldGroups(t)
  {
    assert t[1..|t|] == t[1..];
    assert TldGroup(t, |t| - 1);
  }

  /** A domain made of a segmented name and groups `(\.\w{2,3})+` is accepted. */
  lemma DomainFromGroups(p: string, q: string)
    requires Segmented(p) && TldGroups(q)
    ensures ValidDomain(p + q)
  {
    var d := p + q;
    var k := LastGroup(p, q);
    var m := |p| + k;
    assert d[m] == '.';
    assert d[m + 1..] == q[k + 1..];
    AllWordExcludes(q[k + 1..], '.');
    LastIndexOfIs(d, '.', m);
    assert d[..m] == p + q[..k];
  }

  /** Every string the regular expression matches is accepted by the recognizer. */
  lemma RegexMatchIsValidEmail(s: string)
    requires MatchesEmailRegex(s)
    ensures ValidEmail(s)
  {
    var i, j :| RegexSplit(s, i, j);
    SegmentedExcludes(s[..i], '@');
    IndexOfIs(s, '@', i);
    assert s[i + 1..] == s[i + 1..j] + s[j..];
    DomainFromGroups(s[i + 1..j], s[j..]);
  }

  /** The recognizer accepts exactly the strings the regular expression matches. */
  lemma ValidEmailMatchesRegex(s: string)
    ensures ValidEmail(s) <==> MatchesEmailRegex(s)
  {
    if ValidEmail(s) {
      ValidEmailIsRegexMatch(s);
    }
    if MatchesEmailRegex(s) {
      RegexMatchIsValidEmail(s);
    }
  }
  /** `s` has an `@` at `at` and a `.` at `dot`, a segmented local part
      before the `@`, a segmented host name between the two, and a final label
      of 2 or 3 word characters after the `.`. */
  predicate EmailShape(s: string, at: nat, dot: nat) {
    && at < dot < |s|
    && s[at] == '@' && s[dot] == '.'
    && Segmented(s[..at]) && Segmented(s[at + 1..dot])
    && 2 <= |s| - dot - 1 <= 3 && AllWord(s[dot + 1..])
  }

  /** An accepted address has that shape, and its `@` is the only one. */
  lemma EmailParts(s: string) returns (at: nat, dot: nat)
    requires ValidEmail(s)
    ensures EmailShape(s, at, dot)
    ensures '@' !in s[..at] && '@' !in s[at + 1..]
  {
    at := IndexOf(s, '@').value;
    var d := s[at + 1..];
    var k := LastIndexOf(d, '.').value;
    NoAtInDomain(d, k);
    dot := at + 1 + k;
    assert s[at + 1..dot] == d[..k];
    assert s[dot + 1..] == d[k + 1..];
  }

  /** A domain holds no `@`. */
  lemma NoAtInDomain(d: string, k: nat)
    requires k < |d| && d[k] == '.' && Segmented(d[..k]) && AllWord(d[k + 1..])
    ensures '@' !in d
  {
    SegmentedExcludes(d[..k], '@');
    AllWordExcludes(d[k + 1..], '@');
    forall j | 0 <= j < |d| ensures d[j] != '@' {
      if j < k {
        assert d[j] == d[..k][j];
      } else if j > k {
        assert d[j] == d[k + 1..][j - k - 1];
      }
    }
  }

  /** Conversely, every string of that shape is accepted. */
  lemma EmailFromShape(s: string, at: nat, dot: nat)
    requires EmailShape(s, at, dot)
    ensures ValidEmail(s)
  {
    assert IndexOf(s, '@') == Some(at) by {
      SegmentedExcludes(s[..at], '@');
      IndexOfIs(s, '@', at);
    }
    DomainFromShape(s, at, dot);
  }

  lemma DomainFromShape(s: string, at: nat, dot: nat)
    requires EmailShape(s, at, dot)
    ensures ValidDomain(s[at + 1..])
  {
    var d := s[at + 1..];
    var k := dot - at - 1;
    assert LastIndexOf(d, '.') == Some(k) by {
      assert d[k + 1..] == s[dot + 1..];
      AllWordExcludes(d[k + 1..], '.');
      LastIndexOfIs(d, '.', k);
    }
    assert d[..k] == s[at + 1..dot];
    assert d[k + 1..] == s[dot + 1..];
  }

  /** The recognizer accepts exactly the strings of that shape. */
  lemma ValidEmailIsShape(s: string)
    ensures ValidEmail(s) <==> exists at, dot :: EmailShape(s, at, dot)
  {
    if ValidEmail(s) {
      var at, dot := EmailParts(s);
    }
    if at, dot :| EmailShape(s, at, dot) {
      EmailFromShape(s, at, dot);
    }
  }

  /** An accepted address holds no white space, so `trim` leaves it alone. */
  lemma ValidEmailHasNoSpace(s: string)
    requires ValidEmail(s)
    ensures forall i :: 0 <= i < |s| ==> !IsSpace(s[i])
    ensures Trim(s) == s
  {
    var at, dot := EmailParts(s);
    forall i | 0 <= i < |s| ensures !IsSpace(s[i]) {
      if i < at {
        assert SegmentedAt(s[..at], i);
      } else if at < i < dot {
        assert SegmentedAt(s[at + 1..dot], i - at - 1);
      } else if dot < i {
        assert s[i] == s[dot + 1..][i - dot - 1];
      }
    }
  }

  /** Lower-casing keeps an address valid, as the schema's `lowercase` setter relies on. */
  lemma ValidEmailLower(s: string)
    requires ValidEmail(s)
    ensures ValidEmail(Lower(s))
  {
    var at, dot := EmailParts(s);
    ShapeLower(s, at, dot);
    EmailFromShape(Lower(s), at, dot);
  }

  lemma ShapeLower(s: string, at: nat, dot: nat)
    requires EmailShape(s, at, dot)
    ensures EmailShape(Lower(s), at, dot)
  {
    var t := Lower(s);
    assert t[at] == LowerChar(s[at]) && t[dot] == LowerChar(s[dot]);
    PrefixLower(s, at);
    SliceLower(s, at + 1, dot);
    SuffixLower(s, dot + 1);
  }

  lemma PrefixLower(s: string, i: nat)
    requires i <= |s| && Segmented(s[..i])
    ensures Segmented(Lower(s)[..i])
  {
    LowerPrefix(s, i);
    SegmentedLower(s[..i]);
  }

  lemma SliceLower(s: string, i: nat, j: nat)
    requires i <= j <= |s| && Segmented(s[i..j])
    ensures Segmented(Lower(s)[i..j])
  {
    LowerSlice(s, i, j);
    SegmentedLower(s[i..j]);
  }

  lemma SuffixLower(s: string, i: nat)
    requires i <= |s| && AllWord(s[i..])
    ensures AllWord(Lower(s)[i..])
  {
    LowerSuffix(s, i);
    AllWordLower(s[i..]);
  }

  lemma LowerPrefix(s: string, i: nat)
    requires i <= |s|
    ensures Lower(s)[..i] == Lower(s[..i])
  {
    var t, u := Lower(s), Lower(s[..i]);
    forall k | 0 <= k < i ensures t[..i][k] == u[k] {
      assert u[k] == LowerChar(s[..i][k]);
    }
  }

  lemma LowerSuffix(s: string, i: nat)
    requires i <= |s|
    ensures Lower(s)[i..] == Lower(s[i..])
  {
    var t, u := Lower(s), Lower(s[i..]);
    forall k | 0 <= k < |s| - i ensures t[i..][k] == u[k] {
      assert t[i..][k] == t[i + k];
      assert u[k] == LowerChar(s[i..][k]);
    }
  }

  /** Segmented names stay segmented when lower-cased. */
  lemma SegmentedLower(s: string)
    requires Segmented(s)
    ensures Segmented(Lower(s))
  {
    var t := Lower(s);
    forall i | 0 <= i < |t| ensures SegmentedAt(t, i) {
      assert SegmentedAt(s, i);
    }
  }

  lemma AllWordLower(s: string)
    requires AllWord(s)
    ensures AllWord(Lower(s))
  {
  }
}

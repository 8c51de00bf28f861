/** The JavaScript string primitives the filter relies on: the `\s` and
    `\w` character classes, `indexOf`, `includes`, `replace` with a string
    pattern (first occurrence only), `trim` and `endsWith`; plus the
    "obtained by deleting characters" relation used to state that the
    filter passes only ever remove text. */
module JsStrings {

  /** JavaScript's `\s`: WhiteSpace and LineTerminator code points.
      `String.prototype.trim` strips exactly the same set. */
  predicate IsSpace(c: char) {
    c == ' ' || ('\t' <= c <= '\r') || c == '\U{00A0}' || c == '\U{1680}'
    || ('\U{2000}' <= c <= '\U{200A}') || c == '\U{2028}' || c == '\U{2029}'
    || c == '\U{202F}' || c == '\U{205F}' || c == '\U{3000}' || c == '\U{FEFF}'
  }

  /** The characters that `.` does not match without the `s` flag. */
  predicate IsLineTerminator(c: char) {
    c == '\n' || c == '\r' || c == '\U{2028}' || c == '\U{2029}'
  }

  /** JavaScript's `\w`. */
  predicate IsWordChar(c: char) {
    ('a' <= c <= 'z') || ('A' <= c <= 'Z') || ('0' <= c <= '9') || c == '_'
  }

  /** The class `[\w-]` that starts a CSS declaration or an attribute name. */
  predicate IsIdentChar(c: char) {
    IsWordChar(c) || c == '-'
  }

  /** JavaScript's `\d`. */
  predicate IsDigit(c: char) {
    '0' <= c <= '9'
  }

  predicate AllSpace(s: string) {
    forall k | 0 <= k < |s| :: IsSpace(s[k])
  }

  /** `w` occurs in `s` starting at index `i`. */
  predicate OccursAt(s: string, w: string, i: int) {
    0 <= i && i + |w| <= |s| && forall k | 0 <= k < |w| :: s[i + k] == w[k]
  }

  /** The first index at or after `p` at which `w` occurs, or -1 (see
      IndexFromSpec): `s.indexOf(w, p)`, and the lazy `.*?w` of a regex. */
  function IndexFrom(s: string, w: string, p: nat): (r: int)
    ensures r == -1 || (p <= r && r + |w| <= |s|)
    decreases |s| - p
  {
    if p + |w| > |s| then -1
    else if OccursAt(s, w, p) then p
    else IndexFrom(s, w, p + 1)
  }

  /** `indexFrom` finds an occurrence of `w`, and none lies between `p` and
      it. */
  lemma {:induction false} IndexFromSpec(s: string, w: string, p: nat)
    ensures IndexFrom(s, w, p) >= 0 ==> OccursAt(s, w, IndexFrom(s, w, p))
    ensures forall j | p <= j && (IndexFrom(s, w, p) < 0 || j < IndexFrom(s, w, p)) :: !OccursAt(s, w, j)
    decreases |s| - p
  {
    if p + |w| <= |s| && !OccursAt(s, w, p) {
      IndexFromSpec(s, w, p + 1);
    }
  }

  /** The occurrence that has none between `p` and it is the one found. */
  lemma IndexFromIs(s: string, w: string, p: nat, i: nat)
    requires p <= i && OccursAt(s, w, i)
    requires forall j | p <= j < i :: !OccursAt(s, w, j)
    ensures IndexFrom(s, w, p) == i
  {
    IndexFromSpec(s, w, p);
  }

  /** `s.indexOf(w)`. */
  function IndexOf(s: string, w: string): (r: int)
    ensures -1 <= r && (r >= 0 ==> r + |w| <= |s|)
  {
    IndexFrom(s, w, 0)
  }

  /** `indexOf` finds an occurrence of `w`, and none lies before it. */
  lemma IndexOfSpec(s: string, w: string)
    ensures IndexOf(s, w) >= 0 ==> OccursAt(s, w, IndexOf(s, w))
    ensures forall j | 0 <= j && (IndexOf(s, w) < 0 || j < IndexOf(s, w)) :: !OccursAt(s, w, j)
  {
    IndexFromSpec(s, w, 0);
  }

  /** `s.includes(w)`. */
  predicate Contains(s: string, w: string) {
    IndexOf(s, w) >= 0
  }

  lemma OccursAtContains(s: string, w: string, i: int)
    requires OccursAt(s, w, i)
    ensures Contains(s, w)
  {
    IndexOfSpec(s, w);
  }

  /** An occurrence inside a slice is an occurrence in the whole string. */
  lemma ContainsSlice(s: string, a: nat, b: nat, w: string)
    requires a <= b <= |s|
    requires Contains(s[a..b], w)
    ensures Contains(s, w)
  {
    var u := s[a..b];
    var r := IndexOf(u, w);
    IndexOfSpec(u, w);
    forall k | 0 <= k < |w| ensures s[a + r + k] == w[k] {
      assert u[r + k] == w[k];
    }
    OccursAtContains(s, w, a + r);
  }

  /** `indexOf` finds the occurrence that has none before it. */
  lemma IndexOfIs(s: string, w: string, i: nat)
    requires OccursAt(s, w, i)
    requires forall j | 0 <= j < i :: !OccursAt(s, w, j)
    ensures IndexOf(s, w) == i
  {
    IndexFromIs(s, w, 0, i);
  }

  /** A text in which the first character of `w` does not occur does not
      contain `w`. */
  lemma NoFirstCharNoContains(s: string, w: string)
    requires w != [] && w[0] !in s
    ensures !Contains(s, w)
  {
    IndexOfSpec(s, w);
  }

  /** When the first character of `w` does not occur in `pre`, the first
      occurrence of `w` in `pre + w + post` is the one right after `pre`. */
  lemma IndexOfAfter(pre: string, w: string, post: string)
    requires w != [] && w[0] !in pre
    ensures IndexOf(pre + w + post, w) == |pre|
  {
    var s := pre + w + post;
    assert OccursAt(s, w, |pre|);
    forall j | 0 <= j < |pre| ensures !OccursAt(s, w, j) {
      assert s[j + 0] == pre[j] != w[0];
    }
    IndexOfIs(s, w, |pre|);
  }

  /** Replacing the occurrence found by `IndexOfAfter`. */
  lemma ReplaceFirstAfter(pre: string, w: string, post: string, rep: string)
    requires w != [] && w[0] !in pre
    ensures ReplaceFirst(pre + w + post, w, rep) == pre + rep + post
  {
    var s := pre + w + post;
    IndexOfAfter(pre, w, post);
    assert s[..|pre|] == pre;
    assert s[|pre| + |w|..] == post;
  }

  /** Deleting the occurrence found by `IndexOfAfter`. */
  lemma DeleteFirstAfter(pre: string, w: string, post: string)
    requires w != [] && w[0] !in pre
    ensures ReplaceFirst(pre + w + post, w, "") == pre + post
  {
    ReplaceFirstAfter(pre, w, post, "");
    assert pre + "" == pre;
  }

  /** Replacing a text that starts the string. */
  lemma ReplaceFirstPrefix(m: string, post: string, rep: string)
    ensures ReplaceFirst(m + post, m, rep) == rep + post
  {
    var s := m + post;
    IndexOfIs(s, m, 0);
    assert s[..0] == [] && s[|m|..] == post;
    assert [] + rep + post == rep + post;
  }

  /** Replacing a text whose first occurrence is known to follow `pre`. */
  lemma ReplaceFirstAtIndex(pre: string, m: string, post: string, rep: string)
    requires IndexOf(pre + m + post, m) == |pre|
    ensures ReplaceFirst(pre + m + post, m, rep) == pre + (rep + post)
  {
    var s := pre + m + post;
    assert s[..|pre|] == pre && s[|pre| + |m|..] == post;
    assert pre + rep + post == pre + (rep + post);
  }

  /** Cutting the second part of a concatenation at `i`. */
  lemma SplitAt(a: string, t: string, i: nat)
    requires i <= |t|
    ensures a + t == a + t[..i] + t[i..]
  {
    assert t == t[..i] + t[i..];
  }

  /** `s.replace(pat, rep)` with a string pattern: only the first occurrence
      is replaced, and nothing happens when there is none. */
  function ReplaceFirst(s: string, pat: string, rep: string): string {
    var i := IndexOf(s, pat);
    if i < 0 then s else s[..i] + rep + s[i + |pat|..]
  }

  /** The character classes whose runs the regular expressions scan:
      `\s`, `[\w-]`, `\d`, and what `.` matches without the `s` flag. */
  datatype CharClass = Space | Ident | Digit | InLine

  predicate InClass(c: char, k: CharClass) {
    match k
    case Space => IsSpace(c)
    case Ident => IsIdentChar(c)
    case Digit => IsDigit(c)
    case InLine => !IsLineTerminator(c)
  }

  /** Where the run of class `k` that starts at `p` ends: the greedy `\s*`,
      `[\w-]*`, `\d*` or `.*` from `p`. */
  function RunEnd(s: string, k: CharClass, p: nat): (q: nat)
    requires p <= |s|
    ensures p <= q <= |s|
    ensures q < |s| ==> !InClass(s[q], k)
    ensures p < |s| && InClass(s[p], k) ==> p < q
    decreases |s| - p
  {
    if p < |s| && InClass(s[p], k) then RunEnd(s, k, p + 1) else p
  }

  /** Every character of the run is in the class. */
  lemma {:induction false} RunEndSpec(s: string, k: CharClass, p: nat)
    requires p <= |s|
    ensures forall j | p <= j < RunEnd(s, k, p) :: InClass(s[j], k)
    decreases |s| - p
  {
    if p < |s| && InClass(s[p], k) {
      RunEndSpec(s, k, p + 1);
    }
  }

  /** The run from `p` ends at `q` when `s[p..q]` is in the class and the
      character at `q` is not. */
  lemma {:induction false} RunEndAt(s: string, k: CharClass, p: nat, q: nat)
    requires p <= q <= |s|
    requires forall j | p <= j < q :: InClass(s[j], k)
    requires q == |s| || !InClass(s[q], k)
    ensures RunEnd(s, k, p) == q
    decreases q - p
  {
    if p < q {
      RunEndAt(s, k, p + 1, q);
    }
  }

  /** The run stops at the first character outside the class. */
  lemma RunEndBefore(s: string, k: CharClass, p: nat, j: nat)
    requires p <= j < |s| && !InClass(s[j], k)
    ensures RunEnd(s, k, p) <= j
  {
    RunEndSpec(s, k, p);
  }

  /** A run inside the second part of a concatenation is the same run,
      moved by the length of the first part. */
  lemma {:induction false} RunEndShift(a: string, b: string, k: CharClass, p: nat)
    requires p <= |b|
    ensures RunEnd(a + b, k, |a| + p) == |a| + RunEnd(b, k, p)
    decreases |b| - p
  {
    if p < |b| {
      assert (a + b)[|a| + p] == b[p];
      if InClass(b[p], k) {
        RunEndShift(a, b, k, p + 1);
      }
    }
  }

  /** `s.trimStart()`: the text after the leading whitespace. */
  function TrimStart(s: string): (r: string)
    ensures |r| <= |s| && r == s[|s| - |r|..]
    ensures AllSpace(s[..|s| - |r|])
    ensures r == [] || !IsSpace(r[0])
  {
    RunEndSpec(s, Space, 0);
    s[RunEnd(s, Space, 0)..]
  }

  function TrimEnd(s: string): (r: string)
    ensures |r| <= |s| && r == s[..|r|]
    ensures AllSpace(s[|r|..])
    ensures r == [] || !IsSpace(r[|r| - 1])
  {
    if s != [] && IsSpace(s[|s| - 1]) then
      var r := TrimEnd(s[..|s| - 1]);
      assert s[..|s| - 1][..|r|] == s[..|r|];
      assert s[|r|..] == s[..|s| - 1][|r|..] + [s[|s| - 1]];
      r
    else s
  }

  /** `s.trim()`. */
  function Trim(s: string): (r: string)
    ensures |r| <= |s|
    ensures r == [] || (!IsSpace(r[0]) && !IsSpace(r[|r| - 1]))
  {
    TrimEnd(TrimStart(s))
  }

  /** `s.endsWith('}')` for a one-character suffix. */
  predicate EndsWithChar(s: string, c: char) {
    |s| > 0 && s[|s| - 1] == c
  }

  /** A string that neither starts nor ends with whitespace is its own trim. */
  lemma TrimOfTrimmed(s: string)
    requires s == [] || (!IsSpace(s[0]) && !IsSpace(s[|s| - 1]))
    ensures Trim(s) == s
  {
    assert TrimStart(s) == s;
  }

  /** `trim()` is idempotent. */
  lemma TrimIdempotent(s: string)
    ensures Trim(Trim(s)) == Trim(s)
  {
    TrimOfTrimmed(Trim(s));
  }

  /** Appending a character that is not whitespace: the trim is not empty and
      ends with that character. */
  lemma TrimAppendNonSpace(s: string, c: char)
    requires !IsSpace(c)
    ensures Trim(s + [c]) != [] && EndsWithChar(Trim(s + [c]), c)
  {
    var sc := s + [c];
    var n := RunEnd(sc, Space, 0);
    RunEndBefore(sc, Space, 0, |s|);
    var t := TrimStart(sc);
    assert t == sc[n..];
    assert t != [] && t[|t| - 1] == c;
    assert TrimEnd(t) == t;
  }

  /** `r` can be obtained from `s` by deleting characters. */
  predicate IsSubsequence(r: string, s: string)
    decreases |s|
  {
    r == [] ||
    (s != [] && ((r[0] == s[0] && IsSubsequence(r[1..], s[1..])) || IsSubsequence(r, s[1..])))
  }

  lemma {:induction false} SubsequenceLength(r: string, s: string)
    requires IsSubsequence(r, s)
    ensures |r| <= |s|
    decreases |s|
  {
    if r != [] {
      if r[0] == s[0] && IsSubsequence(r[1..], s[1..]) {
        SubsequenceLength(r[1..], s[1..]);
      } else {
        SubsequenceLength(r, s[1..]);
      }
    }
  }

  lemma {:induction false} SubsequenceRefl(s: string)
    ensures IsSubsequence(s, s)
    decreases |s|
  {
    if s != [] {
      SubsequenceRefl(s[1..]);
    }
  }

  lemma {:induction false} SubsequenceTrans(a: string, b: string, c: string)
    requires IsSubsequence(a, b) && IsSubsequence(b, c)
    ensures IsSubsequence(a, c)
    decreases |c|
  {
    if a == [] {
    } else if IsSubsequence(b, c[1..]) {
      SubsequenceTrans(a, b, c[1..]);
    } else {
      assert b[0] == c[0] && IsSubsequence(b[1..], c[1..]);
      if a[0] == b[0] && IsSubsequence(a[1..], b[1..]) {
        SubsequenceTrans(a[1..], b[1..], c[1..]);
      } else {
        SubsequenceTrans(a, b[1..], c[1..]);
      }
    }
  }

  /** Deleting characters commutes with concatenation: sub-pieces give a
      sub-whole. */
  lemma {:induction false} SubsequenceConcat(a: string, b: string, c: string, d: string)
    requires IsSubsequence(a, b) && IsSubsequence(c, d)
    ensures IsSubsequence(a + c, b + d)
    decreases |b|
  {
    if a == [] {
      SubsequenceSuffix(c, b, d);
      assert a + c == c;
    } else if a[0] == b[0] && IsSubsequence(a[1..], b[1..]) {
      SubsequenceConcat(a[1..], b[1..], c, d);
      assert (a + c)[1..] == a[1..] + c;
      assert (b + d)[1..] == b[1..] + d;
    } else {
      SubsequenceConcat(a, b[1..], c, d);
      assert (b + d)[1..] == b[1..] + d;
    }
  }

  /** A subsequence of `d` is a subsequence of `b + d`. */
  lemma {:induction false} SubsequenceSuffix(c: string, b: string, d: string)
    requires IsSubsequence(c, d)
    ensures IsSubsequence(c, b + d)
    decreases |b|
  {
    if b == [] {
      assert b + d == d;
    } else {
      SubsequenceSuffix(c, b[1..], d);
      assert (b + d)[1..] == b[1..] + d;
    }
  }

  /** Deleting characters inside the middle piece deletes characters of the
      whole. */
  lemma SubsequenceMiddle(a: string, pat: string, rep: string, b: string)
    requires IsSubsequence(rep, pat)
    ensures IsSubsequence(a + rep + b, a + pat + b)
  {
    SubsequenceRefl(a);
    SubsequenceRefl(b);
    SubsequenceConcat(rep, pat, b, b);
    SubsequenceConcat(a, a, rep + b, pat + b);
    assert a + (pat + b) == a + pat + b;
    assert a + (rep + b) == a + rep + b;
  }

  /** The text around the first occurrence of `w`. */
  lemma IndexOfSplit(s: string, w: string)
    requires IndexOf(s, w) >= 0
    ensures s == s[..IndexOf(s, w)] + w + s[IndexOf(s, w) + |w|..]
  {
    var i := IndexOf(s, w);
    IndexOfSpec(s, w);
    forall k | i <= k < i + |w| ensures s[k] == w[k - i] {
      assert s[i + (k - i)] == w[k - i];
    }
  }

  /** Replacing the first occurrence of `pat` by something obtained from `pat`
      by deletion deletes characters of `s`. */
  lemma ReplaceFirstSubsequence(s: string, pat: string, rep: string)
    requires IsSubsequence(rep, pat)
    ensures IsSubsequence(ReplaceFirst(s, pat, rep), s)
  {
    var i := IndexOf(s, pat);
    if i < 0 {
      SubsequenceRefl(s);
    } else {
      IndexOfSplit(s, pat);
      SubsequenceMiddle(s[..i], pat, rep, s[i + |pat|..]);
    }
  }

  /** A prefix and a suffix are obtained by deletion. */
  lemma {:induction false} PrefixSubsequence(r: string, t: string)
    requires |r| <= |t| && r == t[..|r|]
    ensures IsSubsequence(r, t)
    decreases |r|
  {
    if r != [] {
      assert r[1..] == t[1..][..|r| - 1];
      PrefixSubsequence(r[1..], t[1..]);
    }
  }

  lemma SuffixSubsequence(t: string, s: string)
    requires |t| <= |s| && t == s[|s| - |t|..]
    ensures IsSubsequence(t, s)
  {
    SubsequenceRefl(t);
    SubsequenceSuffix(t, s[..|s| - |t|], t);
    assert s[..|s| - |t|] + t == s;
  }

  /** `trim()` only deletes characters. */
  lemma TrimSubsequence(s: string)
    ensures IsSubsequence(Trim(s), s)
  {
    var t := TrimStart(s);
    PrefixSubsequence(TrimEnd(t), t);
    SuffixSubsequence(t, s);
    SubsequenceTrans(TrimEnd(t), t, s);
  }
}

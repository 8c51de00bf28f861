/** The six regular expressions of helpers/filterHtml.ts, each written out as
    a matcher that says how long a match starting at the front of a string
    is, together with the two ways the source uses them: `s.replace(re, '')`
    with the `g` flag (DeleteAll) and `s.match(re)` with the `g` flag
    (Matches). Matching is leftmost and non-overlapping, as in JavaScript. */
module Patterns {
  import opened Wrappers
  import opened JsStrings

  datatype Pattern =
    | Important   // cssBadImportant:  [\w-]+\s*:.*?!important.*?;?   (flags gs)
    | Url         // cssBadUrl:        [\w-]+\s*:\s*url\( <uri> \s*\) ((.|\s)*?;)?
    | ZIndex      // cssBadZIndex:     z-index\s*:\s*(-)?\d\d\d\d+\s*;?
    | StyleBlock  // htmlStyleTag:     <style(...)*?>.*?<\/\s*style\s*>\s*   (flags gs)
    | StyleOpen   // htmlOpenTagStr with TAGHERE = style:  <style(...)*?>\s*
    | StyleClose  // htmlCloseTagStr with TAGHERE = style: <\/\s*style\s*>\s*

  /** A text that every match of the pattern contains. */
  function Keyword(p: Pattern): string {
    match p
    case Important => "!important"
    case Url => "url("
    case ZIndex => "z-index"
    case StyleBlock => "<style"
    case StyleOpen => "<style"
    case StyleClose => "</"
  }

  /** The first `c` at or after `p`, or -1: the lazy `.*?c`. */
  function CharFrom(t: string, c: char, p: nat): (r: int)
    requires p <= |t|
    ensures r == -1 || (p <= r < |t| && t[r] == c)
    decreases |t| - p
  {
    if p == |t| then -1 else if t[p] == c then p else CharFrom(t, c, p + 1)
  }

  /** No `c` lies between `p` and what `CharFrom` finds. */
  lemma {:induction false} CharFromSpec(t: string, c: char, p: nat)
    requires p <= |t|
    ensures forall j | p <= j < |t| && (CharFrom(t, c, p) < 0 || j < CharFrom(t, c, p)) :: t[j] != c
    decreases |t| - p
  {
    if p < |t| && t[p] != c {
      CharFromSpec(t, c, p + 1);
    }
  }

  /** `\s*:` from `p`: the index just after the colon. */
  function ColonEnd(t: string, p: nat): (r: Option<nat>)
    requires p <= |t|
    ensures r.Some? ==> p < r.value <= |t| && t[r.value - 1] == ':'
  {
    var a := RunEnd(t, Space, p);
    if a < |t| && t[a] == ':' then Some(a + 1) else None
  }

  /** `\s*;?` from `p`: the whitespace run and one `;` right after it. */
  function SpaceSemiEnd(t: string, p: nat): (q: nat)
    requires p <= |t|
    ensures p <= q <= |t|
  {
    var a := RunEnd(t, Space, p);
    if a < |t| && t[a] == ';' then a + 1 else a
  }

  /** `[\w-]+\s*:` at the front of `t`: the index just after the colon. */
  function DeclHeadEnd(t: string): (r: Option<nat>)
    ensures r.Some? ==> 0 < r.value <= |t|
  {
    var j := RunEnd(t, Ident, 0);
    if j == 0 then None else ColonEnd(t, j)
  }

  /** `[\w-]+\s*:.*?!important.*?;?` (flags gs): the head, everything up to
      the first `!important` after it, and a `;` that immediately follows. */
  function ImportantLen(t: string): (r: Option<nat>)
    ensures r.Some? ==> 0 < r.value <= |t|
  {
    match DeclHeadEnd(t)
    case None => None
    case Some(k) =>
      var q := IndexFrom(t, "!important", k);
      if q < 0 then None else
      var e := q + 10;
      Some(if e < |t| && t[e] == ';' then e + 1 else e)
  }

  /** `z-index\s*:\s*(-)?\d\d\d\d+\s*;?`. The digit run is greedy and the
      sign cannot be given back to `\d`, so a single forward scan decides
      the match. */
  function ZIndexLen(t: string): (r: Option<nat>)
    ensures r.Some? ==> 0 < r.value <= |t|
    ensures t == [] || t[0] != 'z' ==> r.None?
  {
    if !OccursAt(t, "z-index", 0) then None else
    assert t[0 + 0] == "z-index"[0];
    match ColonEnd(t, 7)
    case None => None
    case Some(a) =>
      var b := RunEnd(t, Space, a);
      var c := if b < |t| && t[b] == '-' then b + 1 else b;
      var d := RunEnd(t, Digit, c);
      if d - c < 4 then None else Some(SpaceSemiEnd(t, d))
  }

  /** Where the uri part `(([^:/?#]+):)?(\/\/([^/?#]*))?([^?#]*)(\?([^#]*))?(#(.*))?`
      that starts at `p0` can end at the latest: before the first `#` it may
      hold anything, after it only up to the next line terminator. */
  function UrlLimit(t: string, p0: nat): (lim: nat)
    requires p0 <= |t|
    ensures p0 <= lim <= |t|
  {
    var h := CharFrom(t, '#', p0);
    if h < 0 then |t| else RunEnd(t, InLine, h + 1)
  }

  /** `c` is a `)` that `\s*\)` can reach from some position the uri part
      can end at. */
  predicate ParenCandidate(t: string, lim: nat, c: int)
    requires lim <= |t|
  {
    0 <= c < |t| && t[c] == ')' && (c <= lim || forall k | lim <= k < c :: IsSpace(t[k]))
  }

  /** The greedy uri part makes the regex settle on the last reachable `)`
      (see LastCloseParenIsLast). */
  function LastCloseParen(t: string, p0: nat, lim: nat, hi: nat): (r: int)
    requires p0 <= hi <= |t| && lim <= |t|
    ensures -1 <= r < hi
    decreases hi
  {
    if hi == p0 then -1
    else if ParenCandidate(t, lim, hi - 1) then hi - 1
    else LastCloseParen(t, p0, lim, hi - 1)
  }

  /** `LastCloseParen` finds a reachable `)` at or after `p0` and below
      `hi`, with none after it, or -1 when there is none. */
  lemma {:induction false} LastCloseParenIsLast(t: string, p0: nat, lim: nat, hi: nat)
    requires p0 <= hi <= |t| && lim <= |t|
    ensures var r := LastCloseParen(t, p0, lim, hi);
      (r == -1 || (p0 <= r && ParenCandidate(t, lim, r))) &&
      forall c | p0 <= c < hi && r < c :: !ParenCandidate(t, lim, c)
    decreases hi
  {
    if hi > p0 && !ParenCandidate(t, lim, hi - 1) {
      LastCloseParenIsLast(t, p0, lim, hi - 1);
    }
  }

  /** `((.|\s)*?;)?` from `p`: through the first `;`, or nothing when there
      is none. */
  function SemiRunEnd(t: string, p: nat): (q: nat)
    requires p <= |t|
    ensures p <= q <= |t|
  {
    var semi := CharFrom(t, ';', p);
    if semi < 0 then p else semi + 1
  }

  /** `[\w-]+\s*:\s*url\(\s*<uri>\s*\)((.|\s)*?;)?`. */
  function UrlLen(t: string): (r: Option<nat>)
    ensures r.Some? ==> 0 < r.value <= |t|
  {
    match DeclHeadEnd(t)
    case None => None
    case Some(k) =>
      var m := RunEnd(t, Space, k);
      if !OccursAt(t, "url(", m) then None else
      var p0 := RunEnd(t, Space, m + 4);
      var lim := UrlLimit(t, p0);
      var c := LastCloseParen(t, p0, lim, |t|);
      if c < 0 then None else Some(SemiRunEnd(t, c + 1))
  }

  /** The attributes of an opening `<style` tag, `(\s*|([\w-]+=".*?"))*?>`,
      scanned from `p` to the `>` that closes the tag. An attribute value
      ends at its first closing quote. */
  function OpenTagEnd(t: string, p: nat): (r: Option<nat>)
    requires p <= |t|
    ensures r.Some? ==> p <= r.value < |t| && t[r.value] == '>'
    decreases |t| - p
  {
    if p == |t| then None
    else if t[p] == '>' then Some(p)
    else if IsSpace(t[p]) then OpenTagEnd(t, RunEnd(t, Space, p))
    else
      var j := RunEnd(t, Ident, p);
      if j > p && j + 1 < |t| && t[j] == '=' && t[j + 1] == '"' then
        var r := CharFrom(t, '"', j + 2);
        if r < 0 then None else OpenTagEnd(t, r + 1)
      else None
  }

  /** `<\/\s*style\s*>` at `r`: the index after the `>`. */
  function CloseTagEnd(t: string, r: nat): (q: Option<nat>)
    requires r <= |t|
    ensures q.Some? ==> OccursAt(t, "</", r) && r + 2 <= q.value <= |t|
  {
    if !OccursAt(t, "</", r) then None else
    var k := RunEnd(t, Space, r + 2);
    if !OccursAt(t, "style", k) then None else
    var m := RunEnd(t, Space, k + 5);
    if m < |t| && t[m] == '>' then Some(m + 1) else None
  }

  /** The lazy `.*?` before the closing tag: the first position at or after
      `q` where a closing `style` tag starts, or -1. */
  function CloseTagSearch(t: string, q: nat): (r: int)
    requires q <= |t|
    ensures r == -1 || (q <= r < |t| && CloseTagEnd(t, r).Some?)
    ensures forall i | q <= i < |t| && (r < 0 || i < r) :: CloseTagEnd(t, i).None?
    decreases |t| - q
  {
    if q == |t| then -1
    else if CloseTagEnd(t, q).Some? then q
    else CloseTagSearch(t, q + 1)
  }

  /** htmlStyleTag: a whole `<style ...>...</style>` block and the
      whitespace after it. */
  function StyleBlockLen(t: string): (r: Option<nat>)
    ensures r.Some? ==> 6 <= r.value <= |t| && OccursAt(t, "<style", 0)
  {
    if !OccursAt(t, "<style", 0) then None else
    match OpenTagEnd(t, 6)
    case None => None
    case Some(a) =>
      var q := CloseTagSearch(t, a + 1);
      if q < 0 then None else
      Some(RunEnd(t, Space, CloseTagEnd(t, q).value))
  }

  /** The opening-tag pattern used to strip `<style ...>` from a block. */
  function StyleOpenLen(t: string): (r: Option<nat>)
    ensures r.Some? ==> 6 <= r.value <= |t| && OccursAt(t, "<style", 0)
  {
    if !OccursAt(t, "<style", 0) then None else
    match OpenTagEnd(t, 6)
    case None => None
    case Some(a) => Some(RunEnd(t, Space, a + 1))
  }

  /** The closing-tag pattern used to strip `</style>` from a block. */
  function StyleCloseLen(t: string): (r: Option<nat>)
    ensures r.Some? ==> 2 <= r.value <= |t| && OccursAt(t, "</", 0)
  {
    match CloseTagEnd(t, 0)
    case None => None
    case Some(m) => Some(RunEnd(t, Space, m))
  }

  /** The length of the match of `p` that starts at the front of `t`. */
  function MatchLen(p: Pattern, t: string): (r: Option<nat>)
    ensures r.Some? ==> 0 < r.value <= |t|
  {
    match p
    case Important => ImportantLen(t)
    case Url => UrlLen(t)
    case ZIndex => ZIndexLen(t)
    case StyleBlock => StyleBlockLen(t)
    case StyleOpen => StyleOpenLen(t)
    case StyleClose => StyleCloseLen(t)
  }

  /** A matcher gives the length of the match that starts at the front of a
      text, or None; a match is never empty and never runs past the text. */
  ghost predicate Advances(m: string -> Option<nat>) {
    forall u {:trigger m(u)} :: m(u).Some? ==> 0 < m(u).value <= |u|
  }

  /** The matcher of a pattern. */
  function Of(p: Pattern): (m: string -> Option<nat>)
    ensures Advances(m)
  {
    u => MatchLen(p, u)
  }

  lemma OfApply(p: Pattern, t: string)
    ensures Of(p)(t) == MatchLen(p, t)
  {
  }

  /** Every match of `m` contains `w`. */
  ghost predicate KeyedBy(m: string -> Option<nat>, w: string) {
    forall u {:trigger m(u)} :: m(u).Some? && m(u).value <= |u| ==> Contains(u[..m(u).value], w)
  }

  /** A scan from left to right that cuts out every leftmost,
      non-overlapping match of `m`. */
  function RemoveMatches(m: string -> Option<nat>, t: string): string
    requires Advances(m)
    decreases |t|
  {
    if t == [] then []
    else match m(t)
      case Some(n) => RemoveMatches(m, t[n..])
      case None => [t[0]] + RemoveMatches(m, t[1..])
  }

  /** The same scan, listing the matches it cuts out. */
  function FindMatches(m: string -> Option<nat>, t: string): seq<string>
    requires Advances(m)
    decreases |t|
  {
    if t == [] then []
    else match m(t)
      case Some(n) => [t[..n]] + FindMatches(m, t[n..])
      case None => FindMatches(m, t[1..])
  }

  /** `t.replace(re, '')` for a global `re`. */
  function DeleteAll(p: Pattern, t: string): string {
    RemoveMatches(Of(p), t)
  }

  /** `t.match(re)` for a global `re` (an empty list when it returns null). */
  function Matches(p: Pattern, t: string): seq<string> {
    FindMatches(Of(p), t)
  }

  function TotalLen(ms: seq<string>): nat {
    if ms == [] then 0 else |ms[0]| + TotalLen(ms[1..])
  }

  /** What the replace removes is exactly what the match finds: the text left
      over is as long as the input minus the matched texts. */
  lemma {:induction false} RemoveMatchesLength(m: string -> Option<nat>, t: string)
    requires Advances(m)
    ensures |RemoveMatches(m, t)| + TotalLen(FindMatches(m, t)) == |t|
    decreases |t|
  {
    if t != [] {
      match m(t)
      case Some(n) =>
        RemoveMatchesLength(m, t[n..]);
        assert FindMatches(m, t)[1..] == FindMatches(m, t[n..]);
      case None =>
        RemoveMatchesLength(m, t[1..]);
    }
  }

  lemma {:induction false} FindMatchesNonEmpty(m: string -> Option<nat>, t: string)
    requires Advances(m)
    ensures forall k | 0 <= k < |FindMatches(m, t)| :: |FindMatches(m, t)[k]| > 0
    decreases |t|
  {
    if t != [] {
      match m(t)
      case Some(n) =>
        FindMatchesNonEmpty(m, t[n..]);
      case None =>
        FindMatchesNonEmpty(m, t[1..]);
    }
  }

  lemma {:induction false} RemoveNoMatches(m: string -> Option<nat>, t: string)
    requires Advances(m)
    ensures FindMatches(m, t) == [] ==> RemoveMatches(m, t) == t
    decreases |t|
  {
    if t != [] {
      match m(t)
      case Some(n) =>
      case None =>
        RemoveNoMatches(m, t[1..]);
        assert [t[0]] + t[1..] == t;
    }
  }

  /** With no match, the global replace gives its input back; with a match it
      shortens it. */
  lemma NoMatchesDeleteAll(p: Pattern, t: string)
    ensures DeleteAll(p, t) == t <==> Matches(p, t) == []
  {
    RemoveMatchesLength(Of(p), t);
    RemoveNoMatches(Of(p), t);
    FindMatchesNonEmpty(Of(p), t);
  }

  lemma KeywordAt(t: string, n: nat, w: string, i: nat)
    requires i + |w| <= n <= |t| && OccursAt(t, w, i)
    ensures Contains(t[..n], w)
  {
    assert OccursAt(t[..n], w, i);
    OccursAtContains(t[..n], w, i);
  }

  lemma ImportantKeyword(t: string)
    requires ImportantLen(t).Some?
    ensures Contains(t[..ImportantLen(t).value], "!important")
  {
    var k := DeclHeadEnd(t).value;
    IndexFromSpec(t, "!important", k);
    KeywordAt(t, ImportantLen(t).value, "!important", IndexFrom(t, "!important", k));
  }

  lemma UrlKeyword(t: string)
    requires UrlLen(t).Some?
    ensures Contains(t[..UrlLen(t).value], "url(")
  {
    var m := RunEnd(t, Space, DeclHeadEnd(t).value);
    var p0 := RunEnd(t, Space, m + 4);
    LastCloseParenIsLast(t, p0, UrlLimit(t, p0), |t|);
    KeywordAt(t, UrlLen(t).value, "url(", m);
  }

  /** Every match of `p` contains the pattern's keyword. */
  lemma MatchLenKeyword(p: Pattern, t: string)
    requires MatchLen(p, t).Some?
    ensures Contains(t[..MatchLen(p, t).value], Keyword(p))
  {
    match p
    case Important => ImportantKeyword(t);
    case Url => UrlKeyword(t);
    case ZIndex => KeywordAt(t, ZIndexLen(t).value, "z-index", 0);
    case StyleBlock => KeywordAt(t, StyleBlockLen(t).value, "<style", 0);
    case StyleOpen => KeywordAt(t, StyleOpenLen(t).value, "<style", 0);
    case StyleClose => KeywordAt(t, StyleCloseLen(t).value, "</", 0);
  }

  lemma OfKeyed(p: Pattern)
    ensures KeyedBy(Of(p), Keyword(p))
  {
    forall u | Of(p)(u).Some? && Of(p)(u).value <= |u| ensures Contains(u[..Of(p)(u).value], Keyword(p)) {
      MatchLenKeyword(p, u);
    }
  }

  lemma {:induction false} FindMatchesKeyed(m: string -> Option<nat>, w: string, t: string)
    requires Advances(m) && KeyedBy(m, w)
    ensures forall k | 0 <= k < |FindMatches(m, t)| :: Contains(FindMatches(m, t)[k], w)
    decreases |t|
  {
    if t != [] {
      match m(t)
      case Some(n) =>
        FindMatchesKeyed(m, w, t[n..]);
      case None =>
        FindMatchesKeyed(m, w, t[1..]);
    }
  }

  /** Every element of `Matches` contains the pattern's keyword. */
  lemma MatchesHaveKeyword(p: Pattern, t: string)
    ensures forall k | 0 <= k < |Matches(p, t)| :: Contains(Matches(p, t)[k], Keyword(p))
  {
    OfKeyed(p);
    FindMatchesKeyed(Of(p), Keyword(p), t);
  }

  lemma {:induction false} NoKeywordNoFind(m: string -> Option<nat>, w: string, t: string)
    requires Advances(m) && KeyedBy(m, w)
    requires !Contains(t, w)
    ensures FindMatches(m, t) == [] && RemoveMatches(m, t) == t
    decreases |t|
  {
    if t != [] {
      match m(t)
      case Some(n) =>
        ContainsSlice(t, 0, n, w);
        assert false;
      case None =>
        if Contains(t[1..], w) {
          assert t[1..|t|] == t[1..];
          ContainsSlice(t, 1, |t|, w);
        }
        NoKeywordNoFind(m, w, t[1..]);
        assert [t[0]] + t[1..] == t;
    }
  }

  /** A text without the keyword has no match. */
  lemma NoKeywordNoMatches(p: Pattern, t: string)
    requires !Contains(t, Keyword(p))
    ensures Matches(p, t) == [] && DeleteAll(p, t) == t
  {
    OfKeyed(p);
    NoKeywordNoFind(Of(p), Keyword(p), t);
  }

  /** The global replace only deletes characters. */
  lemma {:induction false} RemoveMatchesSubsequence(m: string -> Option<nat>, t: string)
    requires Advances(m)
    ensures IsSubsequence(RemoveMatches(m, t), t)
    decreases |t|
  {
    if t != [] {
      match m(t)
      case Some(n) =>
        RemoveMatchesSubsequence(m, t[n..]);
        SubsequenceSuffix(RemoveMatches(m, t[n..]), t[..n], t[n..]);
        assert t[..n] + t[n..] == t;
      case None =>
        RemoveMatchesSubsequence(m, t[1..]);
        SubsequenceRefl([t[0]]);
        SubsequenceConcat([t[0]], [t[0]], RemoveMatches(m, t[1..]), t[1..]);
        assert [t[0]] + t[1..] == t;
    }
  }

  /** Positions of `a` where no match starts are copied through. */
  lemma {:induction false} RemoveMatchesSkip(m: string -> Option<nat>, a: string, b: string)
    requires Advances(m)
    requires forall i | 0 <= i < |a| :: m(a[i..] + b).None?
    ensures RemoveMatches(m, a + b) == a + RemoveMatches(m, b)
    ensures FindMatches(m, a + b) == FindMatches(m, b)
    decreases |a|
  {
    if a == [] {
      assert a + b == b;
    } else {
      var ab := a + b;
      assert m(ab).None? by {
        assert a[0..] + b == ab;
      }
      assert ab[1..] == a[1..] + b;
      forall i | 0 <= i < |a[1..]| ensures m(a[1..][i..] + b).None? {
        assert a[1..][i..] == a[i + 1..];
      }
      RemoveMatchesSkip(m, a[1..], b);
      assert [a[0]] + a[1..] == a;
    }
  }

  /** A match that covers the text `a` and the first `n` characters of `b`
      is cut out whole, and the scan goes on with the rest of `b`. */
  lemma RemoveMatchesAfterMatch(m: string -> Option<nat>, a: string, b: string, n: nat)
    requires Advances(m)
    requires n <= |b| && m(a + b) == Some(|a| + n)
    ensures RemoveMatches(m, a + b) == RemoveMatches(m, b[n..])
  {
    assert (a + b)[|a| + n..] == b[n..];
  }

  /** The same match is the first one listed, and the remaining matches are
      those of the rest of `b`. */
  lemma FindMatchesAfterMatch(m: string -> Option<nat>, a: string, b: string, n: nat)
    requires Advances(m)
    requires n <= |b| && m(a + b) == Some(|a| + n)
    ensures FindMatches(m, a + b) == [a + b[..n]] + FindMatches(m, b[n..])
  {
    var t := a + b;
    assert t[|a| + n..] == b[n..];
    assert t[..|a| + n] == a + b[..n];
  }

  /** A search inside the second part of a concatenation finds the same
      position, moved by the length of the first part. */
  lemma {:induction false} CharFromShift(a: string, b: string, c: char, p: nat)
    requires p <= |b|
    ensures CharFrom(a + b, c, |a| + p) == if CharFrom(b, c, p) < 0 then -1 else |a| + CharFrom(b, c, p)
    decreases |b| - p
  {
    if p < |b| {
      assert (a + b)[|a| + p] == b[p];
      if b[p] != c {
        CharFromShift(a, b, c, p + 1);
      }
    }
  }

  lemma SpaceSemiEndShift(a: string, b: string)
    ensures SpaceSemiEnd(a + b, |a|) == |a| + SpaceSemiEnd(b, 0)
  {
    RunEndShift(a, b, Space, 0);
    var q := RunEnd(b, Space, 0);
    if q < |b| {
      assert (a + b)[|a| + q] == b[q];
    }
  }

  lemma SemiRunEndShift(a: string, b: string)
    ensures SemiRunEnd(a + b, |a|) == |a| + SemiRunEnd(b, 0)
  {
    CharFromShift(a, b, ';', 0);
  }

  /** The same for a pattern: a match that covers `a` and the first `n`
      characters of `b` is cut out whole. */
  lemma DeleteAllAfterMatch(p: Pattern, a: string, b: string, n: nat)
    requires n <= |b| && MatchLen(p, a + b) == Some(|a| + n)
    ensures DeleteAll(p, a + b) == DeleteAll(p, b[n..])
    ensures Matches(p, a + b) == [a + b[..n]] + Matches(p, b[n..])
  {
    OfApply(p, a + b);
    RemoveMatchesAfterMatch(Of(p), a, b, n);
    FindMatchesAfterMatch(Of(p), a, b, n);
  }

  // The matches of declarations whose parts lie at known positions.

  /** `[\w-]+\s*:` matches `t` up to the colon at `b` when `t[..a]` is the
      name and `t[a..b]` whitespace. */
  lemma DeclHeadAt(t: string, a: nat, b: nat)
    requires 0 < a <= b < |t|
    requires forall k | 0 <= k < a :: IsIdentChar(t[k])
    requires forall k | a <= k < b :: IsSpace(t[k])
    requires t[b] == ':'
    ensures DeclHeadEnd(t) == Some(b + 1)
  {
    RunEndAt(t, Ident, 0, a);
    RunEndAt(t, Space, a, b);
  }

  /** No declaration head `[\w-]+\s*:` starts inside a prefix without `:`
      whose last character is outside `[\w-]`, when what follows it starts
      with a character of `[\w-]`. */
  lemma NoDeclHeadAt(pre: string, rest: string, i: nat)
    requires ':' !in pre && i < |pre| && !IsIdentChar(pre[|pre| - 1])
    requires rest != [] && IsIdentChar(rest[0])
    ensures DeclHeadEnd(pre[i..] + rest).None?
  {
    var u := pre[i..] + rest;
    var n := |pre| - i;
    assert u[n - 1] == pre[|pre| - 1] && u[n] == rest[0];
    var j := RunEnd(u, Ident, 0);
    RunEndSpec(u, Ident, 0);
    assert j < n;
    if j > 0 {
      var a := RunEnd(u, Space, j);
      RunEndSpec(u, Space, j);
      assert a <= n;
      if a < n {
        assert u[a] == pre[i + a];
      }
    }
  }

  /** Hence no `!important` match starts inside such a prefix, and the
      matches of the whole text are those of what follows it. */
  lemma ImportantSkipPrefix(pre: string, rest: string)
    requires ':' !in pre && (pre == [] || !IsIdentChar(pre[|pre| - 1]))
    requires rest != [] && IsIdentChar(rest[0])
    ensures Matches(Important, pre + rest) == Matches(Important, rest)
  {
    forall i | 0 <= i < |pre| ensures Of(Important)(pre[i..] + rest).None? {
      NoDeclHeadAt(pre, rest, i);
      OfApply(Important, pre[i..] + rest);
    }
    RemoveMatchesSkip(Of(Important), pre, rest);
  }

  /** A declaration whose head ends at the colon at `b` and whose first
      `!important` after it starts at `q`. */
  lemma ImportantLenAt(t: string, a: nat, b: nat, q: nat)
    requires 0 < a <= b < q && q + 10 <= |t|
    requires forall k | 0 <= k < a :: IsIdentChar(t[k])
    requires forall k | a <= k < b :: IsSpace(t[k])
    requires t[b] == ':'
    requires forall j | b < j < q :: !OccursAt(t, "!important", j)
    requires OccursAt(t, "!important", q)
    ensures ImportantLen(t) == Some(if q + 10 < |t| && t[q + 10] == ';' then q + 11 else q + 10)
  {
    DeclHeadAt(t, a, b);
    IndexFromIs(t, "!important", b + 1, q);
  }

  /** `z-index` followed by whitespace up to the colon at `a`, whitespace up
      to `b`, a `-` exactly when the digits start at `c == b + 1`, and the
      digit run `t[c..d]`: a match exactly when there are four digits. */
  lemma ZIndexLenAt(t: string, a: nat, b: nat, c: nat, d: nat)
    requires 7 <= a < b <= c <= d <= |t| && t[a] == ':'
    requires forall k | 7 <= k < a :: IsSpace(t[k])
    requires forall k | a < k < b :: IsSpace(t[k])
    requires b == |t| || !IsSpace(t[b])
    requires (c == b + 1 && t[b] == '-') || (c == b && (b == |t| || t[b] != '-'))
    requires forall k | c <= k < d :: IsDigit(t[k])
    requires d == |t| || !IsDigit(t[d])
    requires OccursAt(t, "z-index", 0)
    ensures ZIndexLen(t) == if d - c >= 4 then Some(SpaceSemiEnd(t, d)) else None
  {
    RunEndAt(t, Space, 7, a);
    RunEndAt(t, Space, a + 1, b);
    RunEndAt(t, Digit, c, d);
  }

  /** A `url(` declaration whose name ends at `a`, colon is at `b`, `url(`
      starts at `c`, and uri part ends at the `)` just before `e`, with no
      `#` before that `)` and no `)` after it. */
  lemma UrlLenAt(t: string, a: nat, b: nat, c: nat, e: nat)
    requires 0 < a <= b < c && c + 4 < e <= |t|
    requires forall k | 0 <= k < a :: IsIdentChar(t[k])
    requires forall k | a <= k < b :: IsSpace(t[k])
    requires t[b] == ':'
    requires forall k | b < k < c :: IsSpace(t[k])
    requires t[e - 1] == ')'
    requires forall k | c + 4 <= k < e - 1 :: t[k] != '#'
    requires forall k | e <= k < |t| :: t[k] != ')'
    requires OccursAt(t, "url(", c)
    ensures UrlLen(t) == Some(SemiRunEnd(t, e))
  {
    DeclHeadAt(t, a, b);
    assert t[c + 0] == "url("[0];
    RunEndAt(t, Space, b + 1, c);
    var p0 := RunEnd(t, Space, c + 4);
    RunEndBefore(t, Space, c + 4, e - 1);
    var lim := UrlLimit(t, p0);
    CharFromSpec(t, '#', p0);
    assert e - 1 <= lim;
    assert ParenCandidate(t, lim, e - 1);
    LastCloseParenIsLast(t, p0, lim, |t|);
  }
}

/** `filterCssFragment` (helpers/filterHtml.ts): the policy applied to one
    piece of CSS text. `!important` is stripped first, declarations with a
    `url(...)` value are cut out next, and `z-index` declarations with four
    or more digits last. Empty input gives `undefined`. */
module CssFragment {
  import opened Wrappers
  import opened JsStrings
  import opened Patterns

  /** What the `!important` loop has made of `style` after handling the
      matches `ms` (in order): each match text's first occurrence in the
      current text is replaced by the same text without its first
      `!important`. */
  function ImportantFold(style: string, ms: seq<string>): string
    decreases |ms|
  {
    if ms == [] then style
    else
      var bad := ms[|ms| - 1];
      ReplaceFirst(ImportantFold(style, ms[..|ms| - 1]), bad, ReplaceFirst(bad, "!important", ""))
  }

  /** The `!important` pass, driven by the matches of the *original* text. */
  function ImportantPass(style: string): string {
    ImportantFold(style, Matches(Important, style))
  }

  /** The value `filterCssFragment` returns. */
  function FragmentFiltered(style: string): Option<string> {
    if style == "" then None
    else Some(DeleteAll(ZIndex, DeleteAll(Url, ImportantPass(style))))
  }

  method FilterCssFragment(style: string) returns (r: Option<string>)
    ensures r == FragmentFiltered(style)
  {
    if style == "" {
      return None;
    }
    var badImportants := Matches(Important, style);
    var s := style;
    var i := 0;
    while i < |badImportants|
      invariant 0 <= i <= |badImportants|
      invariant s == ImportantFold(style, badImportants[..i])
    {
      var badImportant := badImportants[i];
      var noImportant := ReplaceFirst(badImportant, "!important", "");
      assert badImportants[..i + 1][..i] == badImportants[..i];
      s := ReplaceFirst(s, badImportant, noImportant);
      i := i + 1;
    }
    assert badImportants[..i] == badImportants;
    r := Some(DeleteAll(ZIndex, DeleteAll(Url, s)));
  }

  /** The `!important` loop only deletes characters. */
  lemma {:induction false} ImportantFoldSubsequence(style: string, ms: seq<string>)
    ensures IsSubsequence(ImportantFold(style, ms), style)
    decreases |ms|
  {
    if ms == [] {
      SubsequenceRefl(style);
    } else {
      var bad := ms[|ms| - 1];
      var prev := ImportantFold(style, ms[..|ms| - 1]);
      ImportantFoldSubsequence(style, ms[..|ms| - 1]);
      ReplaceFirstSubsequence(bad, "!important", "");
      ReplaceFirstSubsequence(prev, bad, ReplaceFirst(bad, "!important", ""));
      SubsequenceTrans(ImportantFold(style, ms), prev, style);
    }
  }

  /** `undefined` exactly for the empty text; otherwise the result is the
      input with characters deleted, so it is never longer. */
  lemma FragmentDeletesOnly(style: string)
    ensures FragmentFiltered(style).None? <==> style == ""
    ensures FragmentFiltered(style).Some? ==>
      IsSubsequence(FragmentFiltered(style).value, style) && |FragmentFiltered(style).value| <= |style|
  {
    if style != "" {
      var a := ImportantPass(style);
      var b := DeleteAll(Url, a);
      var c := DeleteAll(ZIndex, b);
      ImportantFoldSubsequence(style, Matches(Important, style));
      RemoveMatchesSubsequence(Of(Url), a);
      RemoveMatchesSubsequence(Of(ZIndex), b);
      SubsequenceTrans(b, a, style);
      SubsequenceTrans(c, b, style);
      SubsequenceLength(c, style);
    }
  }

  /** Text without `!important`, `url(` and `z-index` comes back unchanged. */
  lemma FragmentUnchanged(style: string)
    requires style != ""
    requires !Contains(style, "!important") && !Contains(style, "url(") && !Contains(style, "z-index")
    ensures FragmentFiltered(style) == Some(style)
  {
    NoKeywordNoMatches(Important, style);
    NoKeywordNoMatches(Url, style);
    NoKeywordNoMatches(ZIndex, style);
  }

  /** The `!important` matcher on `name w: v !important t`: the match runs
      through the `!important` and a `;` right after it. */
  lemma ImportantDeclarationLen(name: string, w: string, v: string, t: string)
    requires |name| > 0 && forall k | 0 <= k < |name| :: IsIdentChar(name[k])
    requires AllSpace(w)
    requires '!' !in v
    ensures var pre := name + w + ":" + v;
      ImportantLen(pre + "!important" + t) ==
        Some(|pre| + 10 + (if t != [] && t[0] == ';' then 1 else 0))
  {
    var pre := name + w + ":" + v;
    var s := pre + "!important" + t;
    var a := |name|;
    forall j | a + |w| < j < |pre| ensures !OccursAt(s, "!important", j) {
      assert s[j + 0] != "!important"[0];
    }
    ImportantLenAt(s, a, a + |w|, |pre|);
    assert |pre| + 10 < |s| ==> s[|pre| + 10] == t[0];
  }

  /** The `!important` pass on a text with a single match `m` at its front. */
  lemma ImportantPassSingle(s: string, m: string, post: string)
    requires s == m + post && Matches(Important, s) == [m]
    ensures ImportantPass(s) == ReplaceFirst(m, "!important", "") + post
  {
    assert ImportantFold(s, [m]) == ReplaceFirst(s, m, ReplaceFirst(m, "!important", ""));
    ReplaceFirstPrefix(m, post, ReplaceFirst(m, "!important", ""));
  }

  /** In `name w: v !important t` the only match is the declaration up to
      the `!important` and a `;` right after it. */
  lemma ImportantDeclarationMatches(name: string, w: string, v: string, t: string)
    requires |name| > 0 && forall k | 0 <= k < |name| :: IsIdentChar(name[k])
    requires AllSpace(w)
    requires '!' !in v && '!' !in t
    ensures var semi := if t != [] && t[0] == ';' then 1 else 0;
      var pre := name + w + ":" + v;
      Matches(Important, pre + "!important" + t) == [pre + "!important" + t[..semi]]
  {
    var pre := name + w + ":" + v;
    var semi := if t != [] && t[0] == ';' then 1 else 0;
    ImportantDeclarationLen(name, w, v, t);
    NoBangNoImportantMatch(t, semi);
    DeleteAllAfterMatch(Important, pre + "!important", t, semi);
  }

  /** A tail without `!` has no `!important` match. */
  lemma NoBangNoImportantMatch(t: string, semi: nat)
    requires '!' !in t && semi <= |t|
    ensures Matches(Important, t[semi..]) == []
  {
    assert '!' !in t[semi..];
    NoFirstCharNoContains(t[semi..], "!important");
    NoKeywordNoMatches(Important, t[semi..]);
  }

  /** The head `name w: v` of a declaration has no `!` when `v` has none. */
  lemma NoBangInHead(name: string, w: string, v: string)
    requires forall k | 0 <= k < |name| :: IsIdentChar(name[k])
    requires AllSpace(w)
    requires '!' !in v
    ensures '!' !in name + w + ":" + v
  {
  }

  /** A declaration `name w: v !important t` loses exactly the `!important`
      and keeps everything else, including a `;` right after it. */
  lemma ImportantDeclaration(name: string, w: string, v: string, t: string)
    requires |name| > 0 && forall k | 0 <= k < |name| :: IsIdentChar(name[k])
    requires AllSpace(w)
    requires '!' !in v && '!' !in t
    ensures ImportantPass(name + w + ":" + v + "!important" + t) == name + w + ":" + v + t
  {
    var pre := name + w + ":" + v;
    var semi := if t != [] && t[0] == ';' then 1 else 0;
    var m := pre + "!important" + t[..semi];
    ImportantDeclarationMatches(name, w, v, t);
    SplitAt(pre + "!important", t, semi);
    ImportantPassSingle(pre + "!important" + t, m, t[semi..]);
    NoBangInHead(name, w, v);
    DeleteFirstAfter(pre, "!important", t[..semi]);
    SplitAt(pre, t, semi);
  }

  /** A declaration after a prefix `pre` that holds no `:` and does not end
      in a character of `[\w-]` (a selector and `{`, a `;`, whitespace):
      the `!important` pass strips the `!important` there and keeps the rest,
      the prefix included. */
  lemma ImportantDeclarationAfter(pre: string, name: string, w: string, v: string, t: string)
    requires ':' !in pre && (pre == [] || !IsIdentChar(pre[|pre| - 1]))
    requires |name| > 0 && forall k | 0 <= k < |name| :: IsIdentChar(name[k])
    requires AllSpace(w)
    requires '!' !in v && '!' !in t
    ensures ImportantPass(pre + (name + w + ":" + v + "!important" + t)) == pre + (name + w + ":" + v + t)
  {
    var hd := name + w + ":" + v;
    var semi := if t != [] && t[0] == ';' then 1 else 0;
    var m := hd + "!important" + t[..semi];
    var s := pre + (hd + "!important" + t);
    ImportantAfterMatches(pre, name, w, v, t, semi);
    ImportantAfterIndex(pre, name, w, v, t, semi);
    ImportantPassSingleAfter(s, pre, m, t[semi..]);
    ImportantAfterRest(name, w, v, t, semi);
  }

  /** The one match of the declaration after `pre`, and where it lies. */
  lemma ImportantAfterMatches(pre: string, name: string, w: string, v: string, t: string, semi: nat)
    requires ':' !in pre && (pre == [] || !IsIdentChar(pre[|pre| - 1]))
    requires |name| > 0 && forall k | 0 <= k < |name| :: IsIdentChar(name[k])
    requires AllSpace(w)
    requires '!' !in v && '!' !in t
    requires semi == if t != [] && t[0] == ';' then 1 else 0
    ensures Matches(Important, pre + (name + w + ":" + v + "!important" + t))
      == [name + w + ":" + v + "!important" + t[..semi]]
  {
    var d := name + w + ":" + v + "!important" + t;
    ImportantDeclarationMatches(name, w, v, t);
    assert d[0] == name[0];
    ImportantSkipPrefix(pre, d);
  }

  /** The first copy of that match in the whole text starts right after `pre`. */
  lemma ImportantAfterIndex(pre: string, name: string, w: string, v: string, t: string, semi: nat)
    requires ':' !in pre
    requires forall k | 0 <= k < |name| :: IsIdentChar(name[k])
    requires AllSpace(w)
    requires semi <= |t|
    ensures pre + (name + w + ":" + v + "!important" + t)
      == pre + (name + w + ":" + v + "!important" + t[..semi]) + t[semi..]
    ensures IndexOf(pre + (name + w + ":" + v + "!important" + t), name + w + ":" + v + "!important" + t[..semi]) == |pre|
  {
    var hd := name + w + ":" + v;
    var m := hd + "!important" + t[..semi];
    SplitAt(hd + "!important", t, semi);
    var h := |name| + |w|;
    assert m[h] == ':' && ':' !in m[..h] by {
      assert forall k | 0 <= k < h :: m[..h][k] == (name + w)[k];
    }
    FirstCopyAfter(pre, m, h, t[semi..]);
  }

  /** Deleting `!important` from the match and putting the tail back gives the declaration without it. */
  lemma ImportantAfterRest(name: string, w: string, v: string, t: string, semi: nat)
    requires forall k | 0 <= k < |name| :: IsIdentChar(name[k])
    requires AllSpace(w)
    requires '!' !in v && semi <= |t|
    ensures ReplaceFirst(name + w + ":" + v + "!important" + t[..semi], "!important", "") + t[semi..]
      == name + w + ":" + v + t
  {
    var hd := name + w + ":" + v;
    NoBangInHead(name, w, v);
    DeleteFirstAfter(hd, "!important", t[..semi]);
    SplitAt(hd, t, semi);
  }

  /** A text `m` whose first `:` is at `h` first occurs right after a
      prefix without `:`. */
  lemma FirstCopyAfter(pre: string, m: string, h: nat, post: string)
    requires ':' !in pre
    requires h < |m| && m[h] == ':' && ':' !in m[..h]
    ensures IndexOf(pre + m + post, m) == |pre|
  {
    var s := pre + m + post;
    forall j | 0 <= j < |pre| ensures !OccursAt(s, m, j) {
      if j + h < |pre| {
        assert s[j + h] == pre[j + h];
      } else {
        assert s[j + h] == m[..h][j + h - |pre|];
      }
    }
    assert OccursAt(s, m, |pre|) by {
      assert s[|pre|..|pre| + |m|] == m;
    }
    IndexOfIs(s, m, |pre|);
  }

  /** The `!important` pass on a text whose single match `m` first occurs
      right after `pre`. */
  lemma ImportantPassSingleAfter(s: string, pre: string, m: string, post: string)
    requires s == pre + m + post && Matches(Important, s) == [m]
    requires IndexOf(s, m) == |pre|
    ensures ImportantPass(s) == pre + (ReplaceFirst(m, "!important", "") + post)
  {
    var r := ReplaceFirst(m, "!important", "");
    assert ImportantFold(s, [m]) == ReplaceFirst(s, m, r);
    ReplaceFirstAtIndex(pre, m, post, r);
  }

  /** The declaration in a `<style>` body with a selector:
      `p{color:red!important}` becomes `p{color:red}`. */
  lemma ImportantAfterSelector(pre: string, name: string, v: string, t: string)
    requires pre == "p{" && name == "color" && v == "red" && t == "}"
    ensures ImportantPass(pre + name + ":" + v + "!important" + t) == "p{color:red}"
  {
    SelectorTexts(pre, name, v, t);
    ImportantDeclarationAfter(pre, name, "", v, t);
  }

  /** How the text of `ImportantAfterSelector` splits into its parts. */
  lemma SelectorTexts(pre: string, name: string, v: string, t: string)
    requires pre == "p{" && name == "color" && v == "red" && t == "}"
    ensures ':' !in pre && !IsIdentChar(pre[|pre| - 1])
    ensures |name| > 0 && forall k | 0 <= k < |name| :: IsIdentChar(name[k])
    ensures AllSpace("") && '!' !in v && '!' !in t
    ensures pre + name + ":" + v + "!important" + t == pre + (name + "" + ":" + v + "!important" + t)
    ensures pre + (name + "" + ":" + v + t) == "p{color:red}"
  {
    assert forall k | 0 <= k < |name| :: IsIdentChar(name[k]);
  }

  /** Where the parts of `z-index w1 : w2 (-)d rest` lie. */
  lemma ZIndexDeclarationShape(w1: string, w2: string, sign: string, d: string, rest: string)
    requires AllSpace(w1) && AllSpace(w2) && (sign == "" || sign == "-")
    requires d != [] && forall k | 0 <= k < |d| :: IsDigit(d[k])
    requires rest == [] || !IsDigit(rest[0])
    ensures var decl := "z-index" + w1 + ":" + w2 + sign + d;
      var t := decl + rest;
      var a := 7 + |w1|;
      var b := a + 1 + |w2|;
      var c := b + |sign|;
      && 7 <= a < b <= c <= |decl| <= |t| && t[a] == ':'
      && (forall k | 7 <= k < a :: IsSpace(t[k]))
      && (forall k | a < k < b :: IsSpace(t[k]))
      && (b == |t| || !IsSpace(t[b]))
      && ((c == b + 1 && t[b] == '-') || (c == b && (b == |t| || t[b] != '-')))
      && (forall k | c <= k < |decl| :: IsDigit(t[k]))
      && (|decl| == |t| || !IsDigit(t[|decl|]))
      && OccursAt(t, "z-index", 0)
  {
    var decl := "z-index" + w1 + ":" + w2 + sign + d;
    var t := decl + rest;
    var b := 7 + |w1| + 1 + |w2|;
    assert t[b] == (sign + d)[0];
    forall k | 0 <= k < 7 ensures t[k] == "z-index"[k] { }
  }

  /** The `z-index` matcher on `z-index w1 : w2 (-)d`: a match exactly when
      `d` has four or more digits, and then it runs on through `\s*;?`. */
  lemma ZIndexDeclarationAt(w1: string, w2: string, sign: string, d: string, rest: string)
    requires AllSpace(w1) && AllSpace(w2) && (sign == "" || sign == "-")
    requires d != [] && forall k | 0 <= k < |d| :: IsDigit(d[k])
    requires rest == [] || !IsDigit(rest[0])
    ensures var decl := "z-index" + w1 + ":" + w2 + sign + d;
      ZIndexLen(decl + rest) == if |d| >= 4 then Some(|decl| + SpaceSemiEnd(rest, 0)) else None
  {
    var decl := "z-index" + w1 + ":" + w2 + sign + d;
    var t := decl + rest;
    var a := 7 + |w1|;
    var b := a + 1 + |w2|;
    var c := b + |sign|;
    ZIndexDeclarationShape(w1, w2, sign, d, rest);
    ZIndexLenShifted(decl, rest, a, b, c);
  }

  /** `ZIndexLenAt` with the digit run ending where `decl` ends. */
  lemma ZIndexLenShifted(decl: string, rest: string, a: nat, b: nat, c: nat)
    requires 7 <= a < b <= c <= |decl| <= |decl + rest| && (decl + rest)[a] == ':'
    requires forall k | 7 <= k < a :: IsSpace((decl + rest)[k])
    requires forall k | a < k < b :: IsSpace((decl + rest)[k])
    requires b == |decl + rest| || !IsSpace((decl + rest)[b])
    requires (c == b + 1 && (decl + rest)[b] == '-') || (c == b && (b == |decl + rest| || (decl + rest)[b] != '-'))
    requires forall k | c <= k < |decl| :: IsDigit((decl + rest)[k])
    requires |decl| == |decl + rest| || !IsDigit((decl + rest)[|decl|])
    requires OccursAt(decl + rest, "z-index", 0)
    ensures ZIndexLen(decl + rest) == if |decl| - c >= 4 then Some(|decl| + SpaceSemiEnd(rest, 0)) else None
  {
    ZIndexLenAt(decl + rest, a, b, c, |decl|);
    SpaceSemiEndShift(decl, rest);
  }

  /** `z-index w1 : w2 (-)d` with four or more digits `d` is matched whole,
      together with the whitespace after it and one `;` after that. */
  lemma ZIndexLargeMatched(w1: string, w2: string, sign: string, d: string, rest: string)
    requires AllSpace(w1) && AllSpace(w2) && (sign == "" || sign == "-")
    requires |d| >= 4 && forall k | 0 <= k < |d| :: IsDigit(d[k])
    requires rest == [] || !IsDigit(rest[0])
    ensures var decl := "z-index" + w1 + ":" + w2 + sign + d;
      var n := SpaceSemiEnd(rest, 0);
      ZIndexLen(decl + rest) == Some(|decl| + n) &&
      DeleteAll(ZIndex, decl + rest) == DeleteAll(ZIndex, rest[n..])
  {
    var decl := "z-index" + w1 + ":" + w2 + sign + d;
    ZIndexDeclarationAt(w1, w2, sign, d, rest);
    DeleteAllAfterMatch(ZIndex, decl, rest, SpaceSemiEnd(rest, 0));
  }

  /** A text whose `z-index` match does not start at its front, and whose
      later characters of `a` are no `z`, keeps `a`. */
  lemma ZIndexSkip(a: string, b: string)
    requires ZIndexLen(a + b).None?
    requires forall i | 0 < i < |a| :: a[i] != 'z'
    ensures DeleteAll(ZIndex, a + b) == a + DeleteAll(ZIndex, b)
  {
    forall i | 0 <= i < |a| ensures Of(ZIndex)(a[i..] + b).None? {
      if i == 0 {
        assert a[i..] + b == a + b;
      } else {
        assert (a[i..] + b)[0] == a[i];
      }
    }
    RemoveMatchesSkip(Of(ZIndex), a, b);
  }

  /** A `z-index` of one to three digits is left as it is. */
  lemma ZIndexSmallKept(w1: string, w2: string, sign: string, d: string, rest: string)
    requires AllSpace(w1) && AllSpace(w2) && (sign == "" || sign == "-")
    requires 0 < |d| <= 3 && forall k | 0 <= k < |d| :: IsDigit(d[k])
    requires rest == [] || !IsDigit(rest[0])
    ensures var decl := "z-index" + w1 + ":" + w2 + sign + d;
      DeleteAll(ZIndex, decl + rest) == decl + DeleteAll(ZIndex, rest)
  {
    var decl := "z-index" + w1 + ":" + w2 + sign + d;
    ZIndexDeclarationAt(w1, w2, sign, d, rest);
    assert forall i | 0 < i < |decl| :: decl[i] != 'z';
    ZIndexSkip(decl, rest);
  }

  /** The `url(` matcher on `name w1 : w2 url(u)`: the match runs to the `)`
      and then through the first `;` after it. */
  lemma UrlDeclarationAt(name: string, w1: string, w2: string, u: string, rest: string)
    requires |name| > 0 && forall k | 0 <= k < |name| :: IsIdentChar(name[k])
    requires AllSpace(w1) && AllSpace(w2)
    requires '#' !in u && ')' !in rest
    ensures var decl := name + w1 + ":" + w2 + "url(" + u + ")";
      UrlLen(decl + rest) == Some(SemiRunEnd(decl + rest, |decl|))
  {
    var decl := name + w1 + ":" + w2 + "url(" + u + ")";
    var a := |name|;
    var b := a + |w1|;
    UrlLenAt(decl + rest, a, b, b + 1 + |w2|, |decl|);
  }

  /** How much of `rest` the lazy `((.|\s)*?;)?` tail of the `url(` pattern
      takes: everything up to and including the first `;`, or nothing. */
  function SemiTail(rest: string): (n: nat)
    ensures n <= |rest|
    ensures n == 0 <==> ';' !in rest
    ensures n > 0 ==> rest[n - 1] == ';' && ';' !in rest[..n - 1]
  {
    CharFromSpec(rest, ';', 0);
    SemiRunEnd(rest, 0)
  }

  /** The `url(` matcher on `name w1 : w2 url(u) rest`: the match runs to
      the `)` and then through the first `;` of the rest. */
  lemma UrlDeclarationLen(name: string, w1: string, w2: string, u: string, rest: string)
    requires |name| > 0 && forall k | 0 <= k < |name| :: IsIdentChar(name[k])
    requires AllSpace(w1) && AllSpace(w2)
    requires '#' !in u && ')' !in rest
    ensures var decl := name + w1 + ":" + w2 + "url(" + u + ")";
      MatchLen(Url, decl + rest) == Some(|decl| + SemiTail(rest))
  {
    var decl := name + w1 + ":" + w2 + "url(" + u + ")";
    UrlDeclarationAt(name, w1, w2, u, rest);
    SemiRunEndShift(decl, rest);
  }

  /** A `url(` match over `decl` and the `;` tail of `rest` is cut out. */
  lemma UrlCutFront(decl: string, rest: string)
    requires MatchLen(Url, decl + rest) == Some(|decl| + SemiTail(rest))
    ensures DeleteAll(Url, decl + rest) == DeleteAll(Url, rest[SemiTail(rest)..])
  {
    DeleteAllAfterMatch(Url, decl, rest, SemiTail(rest));
  }

  /** `name w1 : w2 url(u)` is cut out up to its `)` and then through the
      first `;` of the rest, when the rest has one (and no further `)`). */
  lemma UrlDeclarationMatched(name: string, w1: string, w2: string, u: string, rest: string)
    requires |name| > 0 && forall k | 0 <= k < |name| :: IsIdentChar(name[k])
    requires AllSpace(w1) && AllSpace(w2)
    requires '#' !in u && ')' !in rest
    ensures var decl := name + w1 + ":" + w2 + "url(" + u + ")";
      DeleteAll(Url, decl + rest) == DeleteAll(Url, rest[SemiTail(rest)..])
  {
    UrlDeclarationLen(name, w1, w2, u, rest);
    UrlCutFront(name + w1 + ":" + w2 + "url(" + u + ")", rest);
  }

  /** The url match on `head + r2` once the parts of a `url(` declaration
      are located in it, with `head` ending at the last `)`. */
  lemma UrlSwallowAssemble(t: string, head: string, r2: string, a: nat, b: nat, c: nat)
    requires t == head + r2
    requires 0 < a <= b < c && c + 4 < |head|
    requires forall k | 0 <= k < a :: IsIdentChar(t[k])
    requires forall k | a <= k < b :: IsSpace(t[k])
    requires t[b] == ':'
    requires forall k | b < k < c :: IsSpace(t[k])
    requires t[|head| - 1] == ')'
    requires forall k | c + 4 <= k < |head| - 1 :: t[k] != '#'
    requires forall k | |head| <= k < |t| :: t[k] != ')'
    requires OccursAt(t, "url(", c)
    ensures MatchLen(Url, t) == Some(|head| + SemiTail(r2))
    ensures DeleteAll(Url, t) == DeleteAll(Url, r2[SemiTail(r2)..])
  {
    assert MatchLen(Url, t) == Some(|head| + SemiTail(r2)) by {
      UrlLenAt(t, a, b, c, |head|);
      SemiRunEndShift(head, r2);
    }
    DeleteAllAfterMatch(Url, head, r2, SemiTail(r2));
  }

  /** The uri part is greedy and may run over `)`: for `name w1 : w2 url(u)`
      followed by `r1`, a `)` and a rest `r2` without `)`, the match runs to
      that last `)`, the end of `head`, and then through the first `;` of
      `r2`, taking the declarations in `r1` with it. */
  lemma UrlSwallowsToLastParen(name: string, w1: string, w2: string, u: string, r1: string, r2: string, head: string, t: string)
    requires |name| > 0 && forall k | 0 <= k < |name| :: IsIdentChar(name[k])
    requires AllSpace(w1) && AllSpace(w2)
    requires '#' !in u && '#' !in r1 && ')' !in r2
    requires head == name + w1 + ":" + w2 + "url(" + u + ")" + r1 + ")"
    requires t == head + r2
    ensures MatchLen(Url, t) == Some(|head| + SemiTail(r2))
    ensures DeleteAll(Url, t) == DeleteAll(Url, r2[SemiTail(r2)..])
  {
    var a := |name|;
    var b := a + |w1|;
    var c := b + 1 + |w2|;
    var decl := name + w1 + ":" + w2 + "url(" + u + ")";
    forall k | 0 <= k < 4 ensures t[c + k] == "url("[k] { }
    forall k | c + 4 <= k < |head| - 1 ensures t[k] != '#' {
      if k < c + 4 + |u| {
        assert t[k] == u[k - c - 4];
      } else if k > c + 4 + |u| {
        assert t[k] == r1[k - |decl|];
      }
    }
    forall k | |head| <= k < |t| ensures t[k] != ')' {
      assert t[k] == r2[k - |head|];
    }
    UrlSwallowAssemble(t, head, r2, a, b, c);
  }

  /** The url pass on `background:url(a.png);` + `d` + `top:0;`, where the
      declaration `d` holds a `)`: `d` is deleted with the url. */
  lemma UrlSwallowExample(d: string)
    requires d == "color:rgb(0,0,0);"
    ensures DeleteAll(Url, "background:url(a.png);" + d + "top:0;") == "top:0;"
  {
    var r1 := ";" + d[..15];
    var r2 := d[16..] + "top:0;";
    var head := "background" + "" + ":" + "" + "url(" + "a.png" + ")" + r1 + ")";
    UrlSwallowExampleParts(d, r1, r2, head);
    UrlSwallowsToLastParen("background", "", "", "a.png", r1, r2, head, head + r2);
    NoFirstCharNoContains("top:0;", "url(");
    NoKeywordNoMatches(Url, "top:0;");
  }

  /** How the text of `UrlSwallowExample` splits around its last `)`. */
  lemma UrlSwallowExampleParts(d: string, r1: string, r2: string, head: string)
    requires d == "color:rgb(0,0,0);"
    requires r1 == ";" + d[..15] && r2 == d[16..] + "top:0;"
    requires head == "background" + "" + ":" + "" + "url(" + "a.png" + ")" + r1 + ")"
    ensures head + r2 == "background:url(a.png);" + d + "top:0;"
    ensures forall k | 0 <= k < |"background"| :: IsIdentChar("background"[k])
    ensures '#' !in r1 && ')' !in r2
    ensures SemiTail(r2) == 1 && r2[1..] == "top:0;"
  {
    assert SemiTail(r2) == 1;
  }

  /** A non-empty text without `!` is kept by the `!important` pass. */
  lemma NoBangImportantPass(s: string)
    requires '!' !in s
    ensures ImportantPass(s) == s
  {
    NoFirstCharNoContains(s, "!important");
    NoKeywordNoMatches(Important, s);
  }

  /** `url(a.png)` followed by the declaration `d`, which has a `)` in its
      value: `d` is deleted together with the url declaration. */
  lemma UrlSwallowsNextDeclaration(d: string)
    requires d == "color:rgb(0,0,0);"
    ensures FragmentFiltered("background:url(a.png);" + d + "top:0;") == Some("top:0;")
  {
    var s := "background:url(a.png);" + d + "top:0;";
    assert '!' !in s;
    NoBangImportantPass(s);
    UrlSwallowExample(d);
    NoFirstCharNoContains("top:0;", "z-index");
    NoKeywordNoMatches(ZIndex, "top:0;");
  }

  /** The `!important` pass turns `z-index:d!important;` into `z-index:d;`. */
  lemma ImportantBeforeZIndexPass(d: string)
    requires forall k | 0 <= k < |d| :: IsDigit(d[k])
    ensures ImportantPass("z-index:" + d + "!important;") == "z-index:" + d + ";"
  {
    assert forall k | 0 <= k < 7 :: IsIdentChar("z-index"[k]);
    assert '!' !in d;
    ImportantDeclaration("z-index", "", d, ";");
    ZIndexImportantText(d);
  }

  /** The texts of `ImportantBeforeZIndexPass`, regrouped. */
  lemma ZIndexImportantText(d: string)
    ensures "z-index" + "" + ":" + d + "!important" + ";" == "z-index:" + d + "!important;"
    ensures "z-index" + "" + ":" + d + ";" == "z-index:" + d + ";"
  {
    assert "z-index" + "" + ":" == "z-index:";
    assert "!important" + ";" == "!important;";
  }

  /** `z-index:d` with four or more digits, without blanks, is matched whole
      together with the whitespace and one `;` after it. */
  lemma ZIndexPlainMatched(d: string, rest: string)
    requires |d| >= 4 && forall k | 0 <= k < |d| :: IsDigit(d[k])
    requires rest == [] || !IsDigit(rest[0])
    ensures DeleteAll(ZIndex, "z-index:" + d + rest) == DeleteAll(ZIndex, rest[SpaceSemiEnd(rest, 0)..])
  {
    ZIndexLargeMatched("", "", "", d, rest);
    assert "z-index" + "" + ":" + "" + "" + d == "z-index:" + d;
  }

  /** `z-index:d;` with four or more digits is deleted whole. */
  lemma ZIndexLargeDeleted(d: string)
    requires |d| >= 4 && forall k | 0 <= k < |d| :: IsDigit(d[k])
    ensures DeleteAll(ZIndex, "z-index:" + d + ";") == ""
  {
    ZIndexPlainMatched(d, ";");
    assert SpaceSemiEnd(";", 0) == 1;
  }

  /** Before the `!important` pass the `z-index` match stops at the `!`. */
  lemma ZIndexBeforeImportant(d: string)
    requires |d| >= 4 && forall k | 0 <= k < |d| :: IsDigit(d[k])
    ensures DeleteAll(ZIndex, "z-index:" + d + "!important;") == "!important;"
  {
    var rest := "!important;";
    ZIndexPlainMatched(d, rest);
    assert SpaceSemiEnd(rest, 0) == 0;
    assert rest[0..] == rest;
    NoFirstCharNoContains(rest, "z-index");
    NoKeywordNoMatches(ZIndex, rest);
  }

  /** The stage order matters: `z-index:1000!important;` is removed entirely
      because `!important` goes first, whereas the `z-index` pattern alone
      would stop at the `!` and leave `!important;` behind. */
  lemma ImportantBeforeZIndex(d: string)
    requires |d| >= 4 && forall k | 0 <= k < |d| :: IsDigit(d[k])
    ensures FragmentFiltered("z-index:" + d + "!important;") == Some("")
    ensures DeleteAll(ZIndex, "z-index:" + d + "!important;") == "!important;"
  {
    var a := "z-index:" + d + ";";
    ImportantBeforeZIndexPass(d);
    NoFirstCharNoContains(a, "url(");
    NoKeywordNoMatches(Url, a);
    ZIndexLargeDeleted(d);
    ZIndexBeforeImportant(d);
  }
}

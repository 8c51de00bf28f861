/** Corrected forms of two steps of helpers/filterHtml.ts whose code does
    something other than what it evidently intends. The rest of the model
    follows the code as written; the definitions here state the intended
    behaviour, and the lemmas prove it and show where the two differ.

    1. The url pattern: its uri part runs to the last `)` it can reach, so a
       later declaration with a `)` in its value is deleted too. Here the uri
       part stops at its first `)`.
    2. The chunk rewrite: it replaces the first occurrence of a chunk's text,
       wherever that is. Here each chunk is rewritten at its own position. */
module Corrected {
  import opened Wrappers
  import opened JsStrings
  import opened Patterns
  import opened CssFragment
  import opened FilterCss

  // 1. The url pass with the uri part ending at its first `)`.

  /** `[\w-]+\s*:\s*url\(` followed by the uri up to the first `)`, and then
      `((.|\s)*?;)?`. */
  function UrlLenFirstParen(t: string): (r: Option<nat>)
    ensures r.Some? ==> 0 < r.value <= |t|
  {
    match DeclHeadEnd(t)
    case None => None
    case Some(k) =>
      var m := RunEnd(t, Space, k);
      if !OccursAt(t, "url(", m) then None else
      var p0 := RunEnd(t, Space, m + 4);
      var c := CharFrom(t, ')', p0);
      if c < 0 then None else Some(SemiRunEnd(t, c + 1))
  }

  function UrlFirstParen(): (m: string -> Option<nat>)
    ensures Advances(m)
  {
    u => UrlLenFirstParen(u)
  }

  /** `filterCssFragment` with the corrected url pass. */
  function FragmentFilteredFirstParen(style: string): Option<string> {
    if style == "" then None
    else Some(DeleteAll(ZIndex, RemoveMatches(UrlFirstParen(), ImportantPass(style))))
  }

  /** The `c` at `i` with none between `p` and it is what `CharFrom` finds. */
  lemma CharFromIs(t: string, c: char, p: nat, i: nat)
    requires p <= i < |t| && t[i] == c
    requires forall j | p <= j < i :: t[j] != c
    ensures CharFrom(t, c, p) == i
  {
    CharFromSpec(t, c, p);
  }

  /** Every match of the corrected url pattern contains `url(`. */
  lemma UrlFirstParenKeyed()
    ensures KeyedBy(UrlFirstParen(), "url(")
  {
    forall u | UrlFirstParen()(u).Some? && UrlFirstParen()(u).value <= |u|
      ensures Contains(u[..UrlFirstParen()(u).value], "url(")
    {
      var m := RunEnd(u, Space, DeclHeadEnd(u).value);
      KeywordAt(u, UrlLenFirstParen(u).value, "url(", m);
    }
  }

  /** The corrected url pattern on `name w1 : w2 url(u) rest`, with no `)`
      in `u`: the match ends at the `)` of the url and takes the rest through
      its first `;`, whatever the rest holds. */
  lemma UrlFirstParenDeclaration(name: string, w1: string, w2: string, u: string, rest: string, decl: string, t: string)
    requires |name| > 0 && forall k | 0 <= k < |name| :: IsIdentChar(name[k])
    requires AllSpace(w1) && AllSpace(w2)
    requires ')' !in u
    requires decl == name + w1 + ":" + w2 + "url(" + u + ")"
    requires t == decl + rest
    ensures UrlLenFirstParen(t) == Some(|decl| + SemiTail(rest))
  {
    UrlFirstParenShape(name, w1, w2, u, decl, t);
    var a := |name|;
    var b := a + |w1|;
    UrlFirstParenAssemble(t, decl, rest, a, b, b + 1 + |w2|);
  }

  /** The same, once the parts of the declaration are located in `t`. */
  lemma UrlFirstParenAssemble(t: string, decl: string, rest: string, a: nat, b: nat, c: nat)
    requires t == decl + rest
    requires 0 < a <= b < c && c + 4 < |decl|
    requires forall k | 0 <= k < a :: IsIdentChar(t[k])
    requires forall k | a <= k < b :: IsSpace(t[k])
    requires t[b] == ':'
    requires forall k | b < k < c :: IsSpace(t[k])
    requires t[|decl| - 1] == ')'
    requires forall k | c + 4 <= k < |decl| - 1 :: t[k] != ')'
    requires OccursAt(t, "url(", c)
    ensures UrlLenFirstParen(t) == Some(|decl| + SemiTail(rest))
  {
    UrlLenFirstParenAt(t, a, b, c, |decl|);
    SemiRunEndShift(decl, rest);
  }

  /** A `url(` declaration whose name ends at `a`, colon is at `b`, `url(`
      starts at `c`, and uri part ends at the first `)`, just before `e`. */
  lemma UrlLenFirstParenAt(t: string, a: nat, b: nat, c: nat, e: nat)
    requires 0 < a <= b < c && c + 4 < e <= |t|
    requires forall k | 0 <= k < a :: IsIdentChar(t[k])
    requires forall k | a <= k < b :: IsSpace(t[k])
    requires t[b] == ':'
    requires forall k | b < k < c :: IsSpace(t[k])
    requires t[e - 1] == ')'
    requires forall k | c + 4 <= k < e - 1 :: t[k] != ')'
    requires OccursAt(t, "url(", c)
    ensures UrlLenFirstParen(t) == Some(SemiRunEnd(t, e))
  {
    DeclHeadAt(t, a, b);
    assert t[c + 0] == "url("[0];
    RunEndAt(t, Space, b + 1, c);
    var p0 := RunEnd(t, Space, c + 4);
    RunEndBefore(t, Space, c + 4, e - 1);
    CharFromIs(t, ')', p0, e - 1);
  }

  /** Where the parts of `name w1 : w2 url(u)` lie in a text that starts
      with it. */
  lemma UrlFirstParenShape(name: string, w1: string, w2: string, u: string, decl: string, t: string)
    requires |name| > 0 && forall k | 0 <= k < |name| :: IsIdentChar(name[k])
    requires AllSpace(w1) && AllSpace(w2)
    requires ')' !in u
    requires decl == name + w1 + ":" + w2 + "url(" + u + ")"
    requires |decl| <= |t| && t[..|decl|] == decl
    ensures var a := |name|;
      var b := a + |w1|;
      var c := b + 1 + |w2|;
      var e := |decl|;
      && 0 < a <= b < c && c + 4 < e <= |t|
      && (forall k | 0 <= k < a :: IsIdentChar(t[k]))
      && (forall k | a <= k < b :: IsSpace(t[k]))
      && t[b] == ':'
      && (forall k | b < k < c :: IsSpace(t[k]))
      && t[e - 1] == ')'
      && (forall k | c + 4 <= k < e - 1 :: t[k] != ')')
      && OccursAt(t, "url(", c)
  {
    var c := |name| + |w1| + 1 + |w2|;
    assert forall k | 0 <= k < |decl| :: t[k] == t[..|decl|][k];
    forall k | 0 <= k < 4 ensures t[c + k] == "url("[k] { }
    forall k | c + 4 <= k < c + 4 + |u| ensures t[k] != ')' {
      assert t[k] == u[k - c - 4];
    }
  }

  /** The corrected url pass deletes the url declaration and the rest through
      its first `;`, and nothing more. */
  lemma UrlFirstParenDeleted(name: string, w1: string, w2: string, u: string, rest: string, t: string)
    requires |name| > 0 && forall k | 0 <= k < |name| :: IsIdentChar(name[k])
    requires AllSpace(w1) && AllSpace(w2)
    requires ')' !in u
    requires t == name + w1 + ":" + w2 + "url(" + u + ")" + rest
    ensures RemoveMatches(UrlFirstParen(), t) == RemoveMatches(UrlFirstParen(), rest[SemiTail(rest)..])
  {
    var decl := name + w1 + ":" + w2 + "url(" + u + ")";
    UrlFirstParenDeclaration(name, w1, w2, u, rest, decl, t);
    RemoveMatchesAfterMatch(UrlFirstParen(), decl, rest, SemiTail(rest));
  }

  /** The corrected filter also only deletes characters, and gives
      `undefined` exactly for the empty text. */
  lemma FragmentFirstParenDeletesOnly(style: string)
    ensures FragmentFilteredFirstParen(style).None? <==> style == ""
    ensures FragmentFilteredFirstParen(style).Some? ==>
      IsSubsequence(FragmentFilteredFirstParen(style).value, style)
  {
    if style != "" {
      var a := ImportantPass(style);
      var b := RemoveMatches(UrlFirstParen(), a);
      var c := DeleteAll(ZIndex, b);
      ImportantFoldSubsequence(style, Matches(Important, style));
      RemoveMatchesSubsequence(UrlFirstParen(), a);
      RemoveMatchesSubsequence(Of(ZIndex), b);
      SubsequenceTrans(b, a, style);
      SubsequenceTrans(c, b, style);
    }
  }

  /** On `background:url(a.png);` followed by declarations `d` (such as
      `color:rgb(0,0,0);`, which the code as written deletes with the url),
      the corrected filter deletes the url declaration only. */
  lemma UrlFirstParenKeepsNextDeclaration(d: string)
    requires '!' !in d && 'u' !in d && 'z' !in d
    ensures FragmentFilteredFirstParen("background:url(a.png);" + d + "top:0;") == Some(d + "top:0;")
  {
    var s := "background:url(a.png);" + d + "top:0;";
    var rest := ";" + d + "top:0;";
    var kept := d + "top:0;";
    var name := "background";
    FirstParenExampleText(d, s, rest, kept);
    NoBangImportantPass(s);
    UrlFirstParenDeleted(name, "", "", "a.png", rest, s);
    NoFirstCharNoContains(kept, "url(");
    UrlFirstParenKeyed();
    NoKeywordNoFind(UrlFirstParen(), "url(", kept);
    NoFirstCharNoContains(kept, "z-index");
    NoKeywordNoMatches(ZIndex, kept);
  }

  /** The texts of `UrlFirstParenKeepsNextDeclaration`, regrouped. */
  lemma FirstParenExampleText(d: string, s: string, rest: string, kept: string)
    requires '!' !in d && 'u' !in d && 'z' !in d
    requires s == "background:url(a.png);" + d + "top:0;"
    requires rest == ";" + d + "top:0;"
    requires kept == d + "top:0;"
    ensures '!' !in s && 'u' !in kept && 'z' !in kept
    ensures forall k | 0 <= k < |"background"| :: IsIdentChar("background"[k])
    ensures "background" + "" + ":" + "" + "url(" + "a.png" + ")" + rest == s
    ensures SemiTail(rest) == 1 && rest[1..] == kept
  {
  }

  // 2. The chunk rewrite by position.

  /** The markup cut at the chunk positions the tokeniser reports: markup
      text and chunk texts, in document order. */
  datatype Piece = Markup(text: string) | Chunk(text: string)

  /** The markup the pieces were cut from. */
  function Joined(ps: seq<Piece>): string
    decreases |ps|
  {
    if ps == [] then "" else Joined(ps[..|ps| - 1]) + ps[|ps| - 1].text
  }

  /** What a piece becomes: markup stays, a chunk becomes its filtered text. */
  function Filtered(p: Piece): string {
    match p
    case Markup(t) => t
    case Chunk(t) => Replacement(FragmentFiltered(t))
  }

  /** Each piece rewritten where it stands. */
  function RewritePieces(ps: seq<Piece>): string
    decreases |ps|
  {
    if ps == [] then "" else RewritePieces(ps[..|ps| - 1]) + Filtered(ps[|ps| - 1])
  }

  predicate HasChunk(ps: seq<Piece>) {
    exists i | 0 <= i < |ps| :: ps[i].Chunk?
  }

  /** `filterCss` with the chunks keyed by position: unchanged without a
      chunk, and otherwise every chunk rewritten in place and the result
      trimmed. */
  function FilteredCssAt(ps: seq<Piece>): string {
    if HasChunk(ps) then Trim(RewritePieces(ps)) else Joined(ps)
  }

  lemma {:induction false} JoinedAppend(p1: seq<Piece>, p2: seq<Piece>)
    ensures Joined(p1 + p2) == Joined(p1) + Joined(p2)
    decreases |p2|
  {
    if p2 == [] {
      assert p1 + p2 == p1;
    } else {
      var n := |p2| - 1;
      assert (p1 + p2)[..|p1 + p2| - 1] == p1 + p2[..n];
      JoinedAppend(p1, p2[..n]);
    }
  }

  /** The rewrite works piece by piece: rewriting a concatenation is
      concatenating the rewrites. */
  lemma {:induction false} RewritePiecesAppend(p1: seq<Piece>, p2: seq<Piece>)
    ensures RewritePieces(p1 + p2) == RewritePieces(p1) + RewritePieces(p2)
    decreases |p2|
  {
    if p2 == [] {
      assert p1 + p2 == p1;
    } else {
      var n := |p2| - 1;
      var ps := p1 + p2;
      assert ps[..|ps| - 1] == p1 + p2[..n];
      RewritePiecesAppend(p1, p2[..n]);
      RewritePiecesSnoc(p1 + p2[..n], p2[n], ps);
      RewritePiecesSnoc(p2[..n], p2[n], p2);
      ConcatAssoc(RewritePieces(p1), RewritePieces(p2[..n]), Filtered(p2[n]));
    }
  }

  /** Rewriting a sequence with one more piece at its end. */
  lemma RewritePiecesSnoc(ps: seq<Piece>, p: Piece, qs: seq<Piece>)
    requires |qs| == |ps| + 1 && qs[..|ps|] == ps && qs[|ps|] == p
    ensures RewritePieces(qs) == RewritePieces(ps) + Filtered(p)
  {
  }

  lemma ConcatAssoc(a: string, b: string, c: string)
    ensures (a + b) + c == a + (b + c)
  {
  }

  /** Every chunk, duplicates included, is replaced by its filtered text at
      its own position, and the text around it is rewritten independently. */
  lemma ChunkFilteredInPlace(pre: seq<Piece>, c: string, post: seq<Piece>)
    ensures Joined(pre + [Chunk(c)] + post) == Joined(pre) + c + Joined(post)
    ensures RewritePieces(pre + [Chunk(c)] + post) ==
      RewritePieces(pre) + Replacement(FragmentFiltered(c)) + RewritePieces(post)
  {
    JoinedAppend(pre + [Chunk(c)], post);
    JoinedAppend(pre, [Chunk(c)]);
    RewritePiecesAppend(pre + [Chunk(c)], post);
    RewritePiecesAppend(pre, [Chunk(c)]);
    assert [Chunk(c)][..0] == [];
  }

  /** Markup pieces come through as they are. */
  lemma {:induction false} MarkupKept(ps: seq<Piece>)
    requires forall i | 0 <= i < |ps| :: ps[i].Markup?
    ensures RewritePieces(ps) == Joined(ps)
    decreases |ps|
  {
    if ps != [] {
      MarkupKept(ps[..|ps| - 1]);
    }
  }

  /** Without a chunk the markup comes back unchanged. */
  lemma FilteredCssAtNoChunks(ps: seq<Piece>)
    requires forall i | 0 <= i < |ps| :: ps[i].Markup?
    ensures FilteredCssAt(ps) == Joined(ps)
  {
  }

  /** With no empty chunk, the rewrite only deletes characters. */
  lemma {:induction false} RewritePiecesDeletesOnly(ps: seq<Piece>)
    requires forall i | 0 <= i < |ps| :: ps[i].Chunk? ==> ps[i].text != ""
    ensures IsSubsequence(RewritePieces(ps), Joined(ps))
    decreases |ps|
  {
    if ps == [] {
      SubsequenceRefl("");
    } else {
      var n := |ps| - 1;
      RewritePiecesDeletesOnly(ps[..n]);
      if ps[n].Markup? {
        SubsequenceRefl(ps[n].text);
      } else {
        FragmentDeletesOnly(ps[n].text);
      }
      SubsequenceConcat(RewritePieces(ps[..n]), Joined(ps[..n]), Filtered(ps[n]), ps[n].text);
    }
  }

  /** So the corrected `filterCss` never lengthens the markup. */
  lemma FilteredCssAtDeletesOnly(ps: seq<Piece>)
    requires forall i | 0 <= i < |ps| :: ps[i].Chunk? ==> ps[i].text != ""
    ensures IsSubsequence(FilteredCssAt(ps), Joined(ps))
  {
    if HasChunk(ps) {
      RewritePiecesDeletesOnly(ps);
      TrimSubsequence(RewritePieces(ps));
      SubsequenceTrans(Trim(RewritePieces(ps)), RewritePieces(ps), Joined(ps));
    } else {
      SubsequenceRefl(Joined(ps));
    }
  }

  /** One chunk between two pieces of markup. */
  lemma SingleChunkAt(a: string, z: string, b: string)
    ensures Joined([Markup(a), Chunk(z), Markup(b)]) == a + z + b
    ensures FilteredCssAt([Markup(a), Chunk(z), Markup(b)]) == Trim(a + Replacement(FragmentFiltered(z)) + b)
  {
    var ps := [Markup(a), Chunk(z), Markup(b)];
    assert ps == [Markup(a)] + [Chunk(z)] + [Markup(b)];
    assert Joined([Markup(a)]) == a by {
      assert [Markup(a)][..0] == [];
    }
    assert Joined([Markup(b)]) == b by {
      assert [Markup(b)][..0] == [];
    }
    assert RewritePieces([Markup(a)]) == a by {
      MarkupKept([Markup(a)]);
    }
    assert RewritePieces([Markup(b)]) == b by {
      MarkupKept([Markup(b)]);
    }
    ChunkFilteredInPlace([Markup(a)], z, [Markup(b)]);
    assert HasChunk(ps) by {
      assert ps[1].Chunk?;
    }
  }

  /** On the markup where the code as written filters the paragraph text,
      the corrected rewrite filters the style attribute and leaves the
      paragraph alone. */
  lemma StyleAttributeFilteredAt(d: string)
    requires |d| >= 4 && forall k | 0 <= k < |d| :: IsDigit(d[k])
    ensures var ps := [Markup("<p>z-index:" + d + "</p><div style=\""), Chunk("z-index:" + d), Markup("\">x</div>")];
      Joined(ps) == "<p>z-index:" + d + "</p><div style=\"z-index:" + d + "\">x</div>" &&
      FilteredCssAt(ps) == "<p>z-index:" + d + "</p><div style=\"\">x</div>"
  {
    var a := "<p>z-index:" + d + "</p><div style=\"";
    var z := "z-index:" + d;
    var b := "\">x</div>";
    SingleChunkAt(a, z, b);
    LargeZIndexChunk(d);
    StyleAttributeText(d, a, z, b);
    TrimOfTrimmed(a + "" + b);
  }

  /** The texts of `StyleAttributeFilteredAt`, regrouped. */
  lemma StyleAttributeText(d: string, a: string, z: string, b: string)
    requires a == "<p>z-index:" + d + "</p><div style=\""
    requires z == "z-index:" + d
    requires b == "\">x</div>"
    ensures a + z + b == "<p>z-index:" + d + "</p><div style=\"z-index:" + d + "\">x</div>"
    ensures a + "" + b == "<p>z-index:" + d + "</p><div style=\"\">x</div>"
    ensures (a + "" + b)[0] == '<' && (a + "" + b)[|a + "" + b| - 1] == '>'
  {
  }
}

/** `isolateCssAndHtml` (helpers/filterHtml.ts): every `<style>...</style>`
    block is cut out of the markup, its body (the block with its opening and
    closing tags stripped) is appended to a CSS accumulator that is closed
    with `}` whenever it does not end with one, and a non-empty accumulator
    is wrapped in a single `<style>` envelope. */
module Isolate {
  import opened JsStrings
  import opened Patterns

  datatype Isolated = Isolated(isolatedHtml: string, isolatedCss: string)

  /** A block with every opening and closing `style` tag stripped. */
  function BlockBody(block: string): string {
    DeleteAll(StyleClose, DeleteAll(StyleOpen, block))
  }

  /** The accumulator is closed: blank, or its trimmed text ends with `}`. */
  predicate Closed(css: string) {
    Trim(css) == "" || EndsWithChar(Trim(css), '}')
  }

  /** Appending a block body, then `}` when the trimmed accumulator is not
      blank and does not end with one. */
  function AppendBody(css: string, body: string): (r: string)
    ensures Closed(r)
    ensures r == css + body || r == css + body + "}"
  {
    var c := css + body;
    if Trim(c) != "" && !EndsWithChar(Trim(c), '}') then
      TrimAppendNonSpace(c, '}');
      c + "}"
    else c
  }

  /** What the loop does with one matched block. */
  function Take(st: Isolated, block: string): Isolated {
    if Contains(block, "<") then
      Isolated(ReplaceFirst(st.isolatedHtml, block, ""), AppendBody(st.isolatedCss, BlockBody(block)))
    else st
  }

  /** The loop state after the blocks `blocks`, from the markup `html`. */
  function TakeAll(html: string, blocks: seq<string>): Isolated
    decreases |blocks|
  {
    if blocks == [] then Isolated(html, "")
    else Take(TakeAll(html, blocks[..|blocks| - 1]), blocks[|blocks| - 1])
  }

  lemma TakeAllNext(html: string, blocks: seq<string>, i: nat)
    requires i < |blocks|
    ensures TakeAll(html, blocks[..i + 1]) == Take(TakeAll(html, blocks[..i]), blocks[i])
  {
    assert blocks[..i + 1][..i] == blocks[..i];
  }

  /** The `<style>` envelope around a non-empty accumulator. */
  function Envelope(css: string): string {
    if css == "" then "" else "<style>" + css + "</style>"
  }

  /** `isolateCssAndHtml(html)`. */
  function Isolation(html: string): Isolated {
    var st := if html == "" then Isolated(html, "") else TakeAll(html, Matches(StyleBlock, html));
    Isolated(st.isolatedHtml, Envelope(st.isolatedCss))
  }

  /** The body of the loop over the matched blocks. */
  method TakeBlock(html: string, css: string, block: string) returns (isolatedHtml: string, isolatedCss: string)
    ensures Isolated(isolatedHtml, isolatedCss) == Take(Isolated(html, css), block)
  {
    isolatedHtml, isolatedCss := html, css;
    if Contains(block, "<") {
      isolatedHtml := ReplaceFirst(isolatedHtml, block, "");
      isolatedCss := isolatedCss + BlockBody(block);
      if Trim(isolatedCss) != "" && !EndsWithChar(Trim(isolatedCss), '}') {
        isolatedCss := isolatedCss + "}";
      }
    }
  }

  method IsolateCssAndHtml(html: string) returns (isolatedHtml: string, isolatedCss: string)
    ensures Isolated(isolatedHtml, isolatedCss) == Isolation(html)
  {
    isolatedHtml := html;
    isolatedCss := "";
    if html != "" {
      var matchedCss := Matches(StyleBlock, isolatedHtml);
      var i := 0;
      while i < |matchedCss|
        invariant 0 <= i <= |matchedCss|
        invariant Isolated(isolatedHtml, isolatedCss) == TakeAll(html, matchedCss[..i])
        invariant Closed(isolatedCss)
      {
        TakeAllNext(html, matchedCss, i);
        isolatedHtml, isolatedCss := TakeBlock(isolatedHtml, isolatedCss, matchedCss[i]);
        i := i + 1;
      }
      assert matchedCss[..i] == matchedCss;
    }
    if isolatedCss != "" {
      isolatedCss := "<style>" + isolatedCss + "</style>";
    }
  }

  /** After every processed block the accumulator is closed. */
  lemma {:induction false} TakeAllClosed(html: string, blocks: seq<string>)
    ensures Closed(TakeAll(html, blocks).isolatedCss)
    decreases |blocks|
  {
    if blocks != [] {
      TakeAllClosed(html, blocks[..|blocks| - 1]);
    }
  }

  /** The CSS part is empty or exactly one `<style>` envelope around a closed,
      non-empty accumulator. */
  lemma IsolationCss(html: string)
    ensures var css := Isolation(html).isolatedCss;
      css == "" ||
      (|css| > 15 && css[..7] == "<style>" && css[|css| - 8..] == "</style>" && Closed(css[7..|css| - 8]))
  {
    var st := if html == "" then Isolated(html, "") else TakeAll(html, Matches(StyleBlock, html));
    TakeAllClosed(html, Matches(StyleBlock, html));
    var css := Envelope(st.isolatedCss);
    if css != "" {
      assert css[7..|css| - 8] == st.isolatedCss;
    }
  }

  /** Every block the pattern finds contains `<`, so the `includes('<')`
      test never skips one. */
  lemma BlocksContainTagStart(html: string)
    ensures forall k | 0 <= k < |Matches(StyleBlock, html)| :: Contains(Matches(StyleBlock, html)[k], "<")
  {
    MatchesHaveKeyword(StyleBlock, html);
    forall k | 0 <= k < |Matches(StyleBlock, html)| ensures Contains(Matches(StyleBlock, html)[k], "<") {
      var m := Matches(StyleBlock, html)[k];
      var i := IndexOf(m, "<style");
      IndexOfSpec(m, "<style");
      assert m[i + 0] == "<style"[0];
      assert m[i + 0] == "<"[0];
      OccursAtContains(m, "<", i);
    }
  }

  /** Without a matching `<style>` block the markup comes back unchanged
      and the CSS part is empty. */
  lemma IsolationNoBlocks(html: string)
    requires Matches(StyleBlock, html) == []
    ensures Isolation(html) == Isolated(html, "")
  {
  }

  /** Markup that has no `<style` at all has no block. */
  lemma IsolationNoStyleTag(html: string)
    requires !Contains(html, "<style")
    ensures Isolation(html) == Isolated(html, "")
  {
    NoKeywordNoMatches(StyleBlock, html);
  }

  /** Cutting blocks out only deletes characters of the markup. */
  lemma {:induction false} TakeAllDeletesOnly(html: string, blocks: seq<string>)
    ensures IsSubsequence(TakeAll(html, blocks).isolatedHtml, html)
    decreases |blocks|
  {
    if blocks == [] {
      SubsequenceRefl(html);
    } else {
      var prev := TakeAll(html, blocks[..|blocks| - 1]).isolatedHtml;
      var b := blocks[|blocks| - 1];
      TakeAllDeletesOnly(html, blocks[..|blocks| - 1]);
      if Contains(b, "<") {
        assert IsSubsequence("", b);
        ReplaceFirstSubsequence(prev, b, "");
        SubsequenceTrans(ReplaceFirst(prev, b, ""), prev, html);
      }
    }
  }

  lemma IsolationHtmlDeletesOnly(html: string)
    ensures IsSubsequence(Isolation(html).isolatedHtml, html)
  {
    if html == "" {
      SubsequenceRefl(html);
    } else {
      TakeAllDeletesOnly(html, Matches(StyleBlock, html));
    }
  }
}

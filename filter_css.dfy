/** `filterCss` (helpers/filterHtml.ts): a streaming pass over the sanitised
    markup collects the CSS chunks (non-empty `style` attribute values and the
    text inside `<style>` elements), each chunk is filtered by
    `filterCssFragment`, and each chunk's first occurrence in the markup is
    replaced by its filtered text. The tokeniser is not modelled: its output
    is the event sequence handed to the callbacks. */
module FilterCss {
  import opened Wrappers
  import opened JsStrings
  import opened CssFragment
  import opened Patterns

  /** One callback of the streaming parser. */
  datatype Event =
    | OpenTag(name: string, attribs: map<string, string>)
    | Text(text: string)
    | CloseTag(name: string)

  /** `attribs.style`, when the attribute is there. */
  function StyleAttr(attribs: map<string, string>): Option<string> {
    if "style" in attribs then Some(attribs["style"]) else None
  }

  /** `if (style)`: a present and non-empty `style` attribute. */
  predicate HasStyle(attribs: map<string, string>) {
    StyleAttr(attribs).Some? && StyleAttr(attribs).value != ""
  }

  predicate NoDuplicates(s: seq<string>) {
    forall i, j | 0 <= i < j < |s| :: s[i] != s[j]
  }

  /** The callbacks' state: the `openCss` counter and the keys of
      `cssChunks` in the order in which they were first assigned. */
  datatype ScanState = ScanState(openCss: nat, keys: seq<string>)

  /** `cssChunks[k] = ...`: assigning to a key that is already there keeps its
      place among the keys. */
  function Record(keys: seq<string>, k: string): (r: seq<string>)
    ensures k in r && (forall x | x in keys :: x in r) && (forall x | x in r :: x in keys || x == k)
    ensures NoDuplicates(keys) ==> NoDuplicates(r)
  {
    if k in keys then keys else keys + [k]
  }

  /** What one callback does to the state. */
  function Step(st: ScanState, e: Event): ScanState {
    match e
    case OpenTag(name, attribs) =>
      var depth := if name == "style" then st.openCss + 1 else st.openCss;
      ScanState(depth, if HasStyle(attribs) then Record(st.keys, StyleAttr(attribs).value) else st.keys)
    case Text(text) =>
      if st.openCss > 0 then ScanState(st.openCss, Record(st.keys, text)) else st
    case CloseTag(name) =>
      if name == "style" && st.openCss > 0 then ScanState(st.openCss - 1, st.keys) else st
  }

  /** The state after the callbacks for `events` have run from `st`. */
  function ScanFrom(st: ScanState, events: seq<Event>): ScanState
    decreases |events|
  {
    if events == [] then st
    else Step(ScanFrom(st, events[..|events| - 1]), events[|events| - 1])
  }

  const Initial := ScanState(0, [])

  function Scan(events: seq<Event>): ScanState {
    ScanFrom(Initial, events)
  }

  /** The event at index `i` records the chunk `k`: a non-empty style
      attribute equal to `k`, or the text `k` while a `<style>` is open. */
  predicate ChunkAt(events: seq<Event>, i: int, k: string)
    requires 0 <= i < |events|
  {
    match events[i]
    case OpenTag(_, attribs) => HasStyle(attribs) && StyleAttr(attribs).value == k
    case Text(text) => text == k && Scan(events[..i]).openCss > 0
    case CloseTag(_) => false
  }

  /** The chunk keys are exactly the texts recorded by some event, each
      listed once. */
  lemma {:induction false} ScanKeys(events: seq<Event>, k: string)
    ensures NoDuplicates(Scan(events).keys)
    ensures k in Scan(events).keys <==> exists i | 0 <= i < |events| :: ChunkAt(events, i, k)
    decreases |events|
  {
    if events != [] {
      var n := |events| - 1;
      var pre := events[..n];
      ScanKeys(pre, k);
      assert Scan(events) == Step(Scan(pre), events[n]);
      forall i | 0 <= i < n ensures ChunkAt(events, i, k) == ChunkAt(pre, i, k) {
        assert events[..i] == pre[..i];
      }
      assert events[..n] == pre;
      if k in Scan(events).keys && k !in Scan(pre).keys {
        assert ChunkAt(events, n, k);
      }
      if ChunkAt(events, n, k) {
        assert k in Scan(events).keys;
      }
    }
  }

  /** `openCss` counts the open `<style>` elements: it never exceeds the
      number of `<style>` opening tags, and it falls short of that number
      only by closing `style` tags. */
  function StyleOpens(events: seq<Event>): nat {
    if events == [] then 0
    else StyleOpens(events[..|events| - 1]) + (if events[|events| - 1].OpenTag? && events[|events| - 1].name == "style" then 1 else 0)
  }

  function StyleCloses(events: seq<Event>): nat {
    if events == [] then 0
    else StyleCloses(events[..|events| - 1]) + (if events[|events| - 1].CloseTag? && events[|events| - 1].name == "style" then 1 else 0)
  }

  lemma {:induction false} OpenCssBounds(events: seq<Event>)
    ensures Scan(events).openCss <= StyleOpens(events)
    ensures StyleOpens(events) <= Scan(events).openCss + StyleCloses(events)
    decreases |events|
  {
    if events != [] {
      OpenCssBounds(events[..|events| - 1]);
    }
  }

  /** The text that `replace(chunk, value)` inserts: an `undefined` value
      is converted to the string "undefined". */
  function Replacement(v: Option<string>): string {
    match v
    case None => "undefined"
    case Some(s) => s
  }

  /** The rewrite loop after the keys `keys`: each key's first occurrence is
      replaced by its value in `chunks` and the result is trimmed. */
  function Rewrite(html: string, keys: seq<string>, chunks: map<string, Option<string>>): string
    requires forall k | k in keys :: k in chunks
    decreases |keys|
  {
    if keys == [] then html
    else
      var k := keys[|keys| - 1];
      Trim(ReplaceFirst(Rewrite(html, keys[..|keys| - 1], chunks), k, Replacement(chunks[k])))
  }

  /** The dictionary `cssChunks` once the keys `keys` are recorded. */
  function ChunkValues(keys: seq<string>): (chunks: map<string, Option<string>>)
    ensures forall k :: k in chunks <==> k in keys
  {
    map k | k in keys :: FragmentFiltered(k)
  }

  /** `filterCss(html)` for the event stream `events` that the tokeniser
      produces for `html`. */
  function FilteredCss(html: string, events: seq<Event>): string {
    var keys := Scan(events).keys;
    Rewrite(html, keys, ChunkValues(keys))
  }

  /** The parser callbacks of `filterCss` as an object whose fields they
      update: the counter `openCss` and the dictionary `cssChunks` (whose
      insertion order `chunkKeys` records). */
  class ChunkCollector {
    var openCss: int
    var chunkKeys: seq<string>
    var cssChunks: map<string, Option<string>>

    /** The counter is never negative, the keys are listed once each, and
        every value is the filtered text of its key. */
    ghost predicate Valid()
      reads this
    {
      openCss >= 0 && NoDuplicates(chunkKeys) &&
      (forall k :: k in cssChunks <==> k in chunkKeys) &&
      (forall k | k in cssChunks :: cssChunks[k] == FragmentFiltered(k))
    }

    ghost function State(): ScanState
      reads this
      requires Valid()
    {
      ScanState(openCss, chunkKeys)
    }

    constructor ()
      ensures Valid() && State() == Initial
    {
      openCss := 0;
      chunkKeys := [];
      cssChunks := map[];
    }

    method SetChunk(k: string)
      requires Valid()
      modifies this
      ensures Valid() && openCss == old(openCss) && chunkKeys == Record(old(chunkKeys), k)
    {
      if k !in cssChunks {
        chunkKeys := chunkKeys + [k];
      }
      var v := FilterCssFragment(k);
      cssChunks := cssChunks[k := v];
    }

    /** `onopentag` */
    method OnOpenTag(name: string, attribs: map<string, string>)
      requires Valid()
      modifies this
      ensures Valid() && State() == Step(old(State()), OpenTag(name, attribs))
    {
      if name == "style" {
        openCss := openCss + 1;
      }
      var style := StyleAttr(attribs);
      if style.Some? && style.value != "" {
        SetChunk(style.value);
      }
    }

    /** `ontext` */
    method OnText(text: string)
      requires Valid()
      modifies this
      ensures Valid() && State() == Step(old(State()), Text(text))
    {
      if openCss != 0 {
        SetChunk(text);
      }
    }

    /** `onclosetag` */
    method OnCloseTag(name: string)
      requires Valid()
      modifies this
      ensures Valid() && State() == Step(old(State()), CloseTag(name))
    {
      if name == "style" && openCss != 0 {
        openCss := openCss - 1;
      }
    }

    /** `parser.write(html); parser.end()`: the callbacks for every event,
        in order. */
    method Write(events: seq<Event>)
      requires Valid()
      modifies this
      ensures Valid() && State() == ScanFrom(old(State()), events)
    {
      var i := 0;
      while i < |events|
        invariant 0 <= i <= |events|
        invariant Valid() && State() == ScanFrom(old(State()), events[..i])
        decreases |events| - i
      {
        assert events[..i + 1][..i] == events[..i];
        match events[i] {
          case OpenTag(name, attribs) => OnOpenTag(name, attribs);
          case Text(text) => OnText(text);
          case CloseTag(name) => OnCloseTag(name);
        }
        i := i + 1;
      }
      assert events[..i] == events;
    }
  }

  /** The rewrite loop of `filterCss` over the recorded chunks. */
  method RewriteChunks(html: string, keys: seq<string>, cssChunks: map<string, Option<string>>)
    returns (filteredHtml: string)
    requires forall k | k in keys :: k in cssChunks
    ensures filteredHtml == Rewrite(html, keys, cssChunks)
  {
    filteredHtml := html;
    var i := 0;
    while i < |keys|
      invariant 0 <= i <= |keys|
      invariant filteredHtml == Rewrite(html, keys[..i], cssChunks)
    {
      var chunk := keys[i];
      var cssChunk := cssChunks[chunk];
      assert keys[..i + 1][..i] == keys[..i];
      filteredHtml := Trim(ReplaceFirst(filteredHtml, chunk, Replacement(cssChunk)));
      i := i + 1;
    }
    assert keys[..i] == keys;
  }

  /** `filterCss(html)`, given the events the tokeniser emits for `html`. */
  method FilterCssMarkup(html: string, events: seq<Event>) returns (filteredHtml: string)
    ensures filteredHtml == FilteredCss(html, events)
  {
    var collector := new ChunkCollector();
    collector.Write(events);
    var keys := collector.chunkKeys;
    var cssChunks := collector.cssChunks;
    assert cssChunks == ChunkValues(keys);
    filteredHtml := RewriteChunks(html, keys, cssChunks);
  }

  /** With no chunk recorded, the markup comes back exactly as it was, not
      even trimmed. */
  lemma FilterCssNoChunks(html: string, events: seq<Event>)
    requires forall i | 0 <= i < |events| :: events[i].OpenTag? ==> !HasStyle(events[i].attribs)
    requires forall i | 0 <= i < |events| :: events[i].Text? ==> Scan(events[..i]).openCss == 0
    ensures FilteredCss(html, events) == html
  {
    var keys := Scan(events).keys;
    if keys != [] {
      ScanKeys(events, keys[0]);
      assert false;
    }
  }

  /** Each chunk is replaced by a text obtained from it by deleting
      characters: then the rewrite only deletes characters. */
  lemma {:induction false} RewriteDeletesOnly(html: string, keys: seq<string>, chunks: map<string, Option<string>>)
    requires forall k | k in keys :: k in chunks && chunks[k].Some? && IsSubsequence(chunks[k].value, k)
    ensures IsSubsequence(Rewrite(html, keys, chunks), html)
    decreases |keys|
  {
    if keys == [] {
      SubsequenceRefl(html);
    } else {
      var k := keys[|keys| - 1];
      var prev := Rewrite(html, keys[..|keys| - 1], chunks);
      RewriteDeletesOnly(html, keys[..|keys| - 1], chunks);
      var rep := Replacement(chunks[k]);
      ReplaceFirstSubsequence(prev, k, rep);
      var replaced := ReplaceFirst(prev, k, rep);
      TrimSubsequence(replaced);
      SubsequenceTrans(Trim(replaced), replaced, prev);
      SubsequenceTrans(Trim(replaced), prev, html);
    }
  }

  /** The style attributes are non-empty by the `if (style)` test; when no
      text event inside a `<style>` is empty either, `filterCss` only deletes
      characters of the markup, so it never makes it longer. */
  lemma FilterCssDeletesOnly(html: string, events: seq<Event>)
    requires forall i | 0 <= i < |events| :: events[i].Text? && Scan(events[..i]).openCss > 0 ==> events[i].text != ""
    ensures IsSubsequence(FilteredCss(html, events), html)
    ensures |FilteredCss(html, events)| <= |html|
  {
    var keys := Scan(events).keys;
    var chunks := ChunkValues(keys);
    forall k | k in keys ensures chunks[k].Some? && IsSubsequence(chunks[k].value, k) {
      ScanKeys(events, k);
      var i :| 0 <= i < |events| && ChunkAt(events, i, k);
      FragmentDeletesOnly(k);
    }
    RewriteDeletesOnly(html, keys, chunks);
    SubsequenceLength(FilteredCss(html, events), html);
  }

  /** The rewrite step for the key at index `n`. */
  lemma RewriteStep(html: string, keys: seq<string>, chunks: map<string, Option<string>>, n: nat)
    requires n < |keys| && forall k | k in keys :: k in chunks
    ensures Rewrite(html, keys[..n + 1], chunks) == Trim(ReplaceFirst(Rewrite(html, keys[..n], chunks), keys[n], Replacement(chunks[keys[n]])))
  {
    assert keys[..n + 1][..n] == keys[..n];
  }

  /** Replacing the empty text puts the replacement at the front. */
  lemma ReplaceEmpty(s: string, rep: string)
    ensures ReplaceFirst(s, "", rep) == rep + s
  {
    assert OccursAt(s, "", 0);
    IndexOfIs(s, "", 0);
    assert s[..0] == [] && s[0..] == s;
  }

  /** The rewrite step for the empty key: `filterCssFragment("")` is
      `undefined`, and replacing the empty text puts the word "undefined" at
      the front of the markup rewritten so far. */
  lemma EmptyKeyStep(html: string, keys: seq<string>, n: nat)
    requires n < |keys| && keys[n] == ""
    ensures Rewrite(html, keys[..n + 1], ChunkValues(keys)) == Trim("undefined" + Rewrite(html, keys[..n], ChunkValues(keys)))
  {
    var chunks := ChunkValues(keys);
    RewriteStep(html, keys, chunks, n);
    assert chunks[""] == FragmentFiltered("") == None;
    ReplaceEmpty(Rewrite(html, keys[..n], chunks), "undefined");
  }

  /** An empty text event inside an open `<style>`, anywhere in the stream,
      makes the empty text a chunk whose value is `undefined`; its rewrite
      step inserts the word "undefined" at the front of the markup. */
  lemma EmptyStyleText(html: string, events: seq<Event>, i: nat)
    requires i < |events| && events[i] == Text("") && Scan(events[..i]).openCss > 0
    ensures var keys := Scan(events).keys;
      exists n | 0 <= n < |keys| :: keys[n] == "" &&
        Rewrite(html, keys[..n + 1], ChunkValues(keys)) == Trim("undefined" + Rewrite(html, keys[..n], ChunkValues(keys)))
  {
    var keys := Scan(events).keys;
    assert ChunkAt(events, i, "");
    ScanKeys(events, "");
    var n :| 0 <= n < |keys| && keys[n] == "";
    EmptyKeyStep(html, keys, n);
  }

  lemma ScanSnoc(events: seq<Event>, e: Event)
    ensures Scan(events + [e]) == Step(Scan(events), e)
  {
    assert (events + [e])[..|events|] == events;
  }

  /** `filterCssFragment("z-index:" + d)` deletes the whole text when `d`
      has four or more digits. */
  lemma LargeZIndexChunk(d: string)
    requires |d| >= 4 && forall k | 0 <= k < |d| :: IsDigit(d[k])
    ensures FragmentFiltered("z-index:" + d) == Some("")
  {
    var z := "z-index:" + d;
    assert '!' !in z && 'u' !in z by {
      forall k | 0 <= k < |d| ensures z[8 + k] == d[k] { }
    }
    NoBangImportantPass(z);
    NoFirstCharNoContains(z, "url(");
    NoKeywordNoMatches(Url, z);
    ZIndexPlainMatched(d, "");
    assert "z-index:" + d + "" == z;
  }

  /** The chunk keys of `<p>z</p><div style="z">x</div>`: only the style
      attribute, since the paragraph text lies outside `<style>`. */
  lemma EarlierCopyKeys(z: string, events: seq<Event>)
    requires events == [OpenTag("p", map[]), Text(z), CloseTag("p"),
      OpenTag("div", map["style" := z]), Text("x"), CloseTag("div")]
    requires z != ""
    ensures Scan(events).keys == [z]
  {
    var e := events;
    assert e[..0] == [];
    ScanSnoc(e[..0], e[0]);
    assert e[..0] + [e[0]] == e[..1];
    ScanSnoc(e[..1], e[1]);
    assert e[..1] + [e[1]] == e[..2];
    ScanSnoc(e[..2], e[2]);
    assert e[..2] + [e[2]] == e[..3];
    assert Scan(e[..3]) == Initial;
    ScanSnoc(e[..3], e[3]);
    assert e[..3] + [e[3]] == e[..4];
    assert Scan(e[..4]) == ScanState(0, [z]);
    ScanSnoc(e[..4], e[4]);
    assert e[..4] + [e[4]] == e[..5];
    ScanSnoc(e[..5], e[5]);
    assert e[..5] + [e[5]] == e;
  }

  /** The rewrite replaces the first occurrence of a chunk's text, which need
      not be the chunk: in `<p>z-index:d</p><div style="z-index:d">x</div>`,
      with four or more digits `d`, the paragraph text is deleted and the
      style attribute is kept unfiltered. */
  lemma EarlierCopyFiltered(d: string, html: string, events: seq<Event>)
    requires |d| >= 4 && forall k | 0 <= k < |d| :: IsDigit(d[k])
    requires html == "<p>z-index:" + d + "</p><div style=\"z-index:" + d + "\">x</div>"
    requires events == [OpenTag("p", map[]), Text("z-index:" + d), CloseTag("p"),
      OpenTag("div", map["style" := "z-index:" + d]), Text("x"), CloseTag("div")]
    ensures FilteredCss(html, events) == "<p></p><div style=\"z-index:" + d + "\">x</div>"
  {
    var z := "z-index:" + d;
    EarlierCopyKeys(z, events);
    LargeZIndexChunk(d);
    SingleKeyRewrite(html, z);
    var post := "</p><div style=\"" + z + "\">x</div>";
    EarlierCopyText(d, z, html, post);
    EarlierCopyReplace(z, post);
  }

  /** The rewrite loop over the single key `k`. */
  lemma SingleKeyRewrite(html: string, k: string)
    ensures Rewrite(html, [k], ChunkValues([k])) == Trim(ReplaceFirst(html, k, Replacement(FragmentFiltered(k))))
  {
    assert [k][..0] == [];
  }

  /** Deleting the first `z` from `<p>` + `z` + `post`. */
  lemma EarlierCopyReplace(z: string, post: string)
    requires z != [] && z[0] == 'z'
    requires post != [] && post[|post| - 1] == '>'
    ensures Trim(ReplaceFirst("<p>" + z + post, z, "")) == "<p>" + "" + post
  {
    ReplaceFirstAfter("<p>", z, post, "");
    TrimOfTrimmed("<p>" + "" + post);
  }

  /** The texts of `EarlierCopyFiltered`, regrouped. */
  lemma EarlierCopyText(d: string, z: string, html: string, post: string)
    requires z == "z-index:" + d
    requires html == "<p>z-index:" + d + "</p><div style=\"z-index:" + d + "\">x</div>"
    requires post == "</p><div style=\"" + z + "\">x</div>"
    ensures html == "<p>" + z + post
    ensures "<p>" + "" + post == "<p></p><div style=\"z-index:" + d + "\">x</div>"
    ensures post[|post| - 1] == '>'
  {
  }
}

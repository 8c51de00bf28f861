/** `filterHtml` (helpers/filterHtml.ts), the submission filter: bare CSS is
    wrapped in `<style>`, the text is sanitised behind a `<body>` tag, the CSS
    chunks are filtered, the `<style>` blocks are separated from the markup,
    and both halves are minified. The sanitiser, the tokeniser and the
    minifier are foreign libraries and appear as function parameters. */
module FilterHtml {
  import opened JsStrings
  import opened FilterCss
  import opened Isolate

  /** The foreign libraries the filter calls. */
  datatype Libraries = Libraries(
    sanitize: string -> string,         // DOMPurify.sanitize with ALLOWED_URI_REGEXP
    tokenize: string -> seq<Event>,     // the callbacks htmlparser2 makes for a text
    minifyHtml: string -> string,       // htmlMinifier.minify with the markup options
    minifyCss: string -> string)        // htmlMinifier.minify with minifyCSS

  datatype Clean = Clean(cleanHtml: string, cleanCss: string)

  /** A submission with a `{` and no `<` is taken for bare CSS. */
  predicate IsBareCss(html: string) {
    Contains(html, "{") && !Contains(html, "<")
  }

  function PreNormalized(html: string): string {
    if IsBareCss(html) then "<style>" + html else html
  }

  /** What the sanitiser is given. */
  function SanitizerInput(html: string): string {
    "<body>" + PreNormalized(html)
  }

  /** The markup filterCss produces from the sanitised submission. */
  function Filtered(lib: Libraries, html: string): string {
    var purifiedHtml := lib.sanitize(SanitizerInput(html));
    FilteredCss(purifiedHtml, lib.tokenize(purifiedHtml))
  }

  /** `filterHtml(html)`. */
  function Filter(lib: Libraries, html: string): Clean {
    var iso := Isolation(Filtered(lib, html));
    Clean(lib.minifyHtml(iso.isolatedHtml), lib.minifyCss(iso.isolatedCss))
  }

  method FilterSubmission(lib: Libraries, html: string) returns (cleanHtml: string, cleanCss: string)
    ensures Clean(cleanHtml, cleanCss) == Filter(lib, html)
  {
    var h := html;
    if Contains(h, "{") && !Contains(h, "<") {
      h := "<style>" + h;
    }
    var purifiedHtml := lib.sanitize("<body>" + h);
    var filteredHtml := FilterCssMarkup(purifiedHtml, lib.tokenize(purifiedHtml));
    var isolatedHtml, isolatedCss := IsolateCssAndHtml(filteredHtml);
    cleanHtml := lib.minifyHtml(isolatedHtml);
    cleanCss := lib.minifyCss(isolatedCss);
  }

  /** `<style>` is prepended exactly to bare CSS, and the sanitiser always
      receives `<body>` followed by the (possibly prefixed) submission. */
  lemma PreNormalization(html: string)
    ensures IsBareCss(html) <==> PreNormalized(html) == "<style>" + html
    ensures !IsBareCss(html) <==> PreNormalized(html) == html
    ensures SanitizerInput(html) == "<body>" + PreNormalized(html)
  {
    assert |"<style>" + html| != |html|;
  }

  /** The minifier for CSS is given either the empty text or one `<style>`
      envelope around a closed accumulator. */
  lemma CssMinifierInput(lib: Libraries, html: string)
    ensures var css := Isolation(Filtered(lib, html)).isolatedCss;
      css == "" ||
      (|css| > 15 && css[..7] == "<style>" && css[|css| - 8..] == "</style>" && Closed(css[7..|css| - 8]))
  {
    IsolationCss(Filtered(lib, html));
  }

  /** Between the sanitiser and the markup minifier characters are only
      deleted, when the tokeniser reports no empty text inside `<style>`. */
  lemma MarkupDeletesOnly(lib: Libraries, html: string)
    requires var purified := lib.sanitize(SanitizerInput(html));
      var events := lib.tokenize(purified);
      forall i | 0 <= i < |events| :: events[i].Text? && Scan(events[..i]).openCss > 0 ==> events[i].text != ""
    ensures var purified := lib.sanitize(SanitizerInput(html));
      IsSubsequence(Isolation(Filtered(lib, html)).isolatedHtml, purified)
  {
    var purified := lib.sanitize(SanitizerInput(html));
    FilterCssDeletesOnly(purified, lib.tokenize(purified));
    IsolationHtmlDeletesOnly(Filtered(lib, html));
    SubsequenceTrans(Isolation(Filtered(lib, html)).isolatedHtml, Filtered(lib, html), purified);
  }
}

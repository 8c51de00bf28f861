/** The in-memory page store (services/page-data-service/memory/index.ts):
    a module-level map from page id to page, where a page holds a list of
    html fragments. `get` falls back to a default page, `put` overwrites the
    list with one item, `del` filters out equal items and `rep` replaces the
    first equal item. */
module MemoryStore {

  datatype Page = Page(id: string, html: seq<string>)

  /** The single html item of the page `get` returns for an unknown id. */
  const DefaultHtml: string :=
    "\n      <input id=\"input_teste\">\n      <button onClick=alert(document.getElementById('input_teste').value)>Alertar</button>\n      <br>\n      <a href=\"/test\">Test link</a>\n      "

  function DefaultPage(pageId: string): (p: Page)
    ensures p.id == pageId && |p.html| == 1
  {
    Page(pageId, [DefaultHtml])
  }

  /** `items.filter((htmlItem) => htmlItem != h)`. */
  function Without(items: seq<string>, h: string): seq<string>
    decreases |items|
  {
    if items == [] then []
    else (if items[0] != h then [items[0]] else []) + Without(items[1..], h)
  }

  /** `items.indexOf(x)`: the first index holding `x`, or -1. */
  function IndexOfItem(items: seq<string>, x: string): (r: int)
    ensures -1 <= r < |items|
    decreases |items|
  {
    if items == [] then -1
    else if items[0] == x then 0
    else
      var k := IndexOfItem(items[1..], x);
      if k < 0 then -1 else k + 1
  }

  /** The list `rep` stores: the copy with `newItem` written at
      `indexOf(oldItem)`. Writing at index -1 creates no list element, so an
      absent `oldItem` leaves the elements as they are. */
  function Replaced(items: seq<string>, oldItem: string, newItem: string): seq<string> {
    var idx := IndexOfItem(items, oldItem);
    if idx >= 0 then items[idx := newItem] else items
  }

  /** What `get` returns for `pageId`. */
  function StoredPage(pages: map<string, Page>, pageId: string): Page {
    if pageId in pages then pages[pageId] else DefaultPage(pageId)
  }

  /** Every stored page carries the id it is stored under. */
  ghost predicate KeysMatch(pages: map<string, Page>) {
    forall id | id in pages :: pages[id].id == id
  }

  class MemoryPageDataService {
    var memoryPages: map<string, Page>

    ghost predicate Valid()
      reads this
    {
      KeysMatch(memoryPages)
    }

    constructor ()
      ensures Valid() && memoryPages == map[]
    {
      memoryPages := map[];
    }

    /** `get`: the stored page, or a default page that is not stored. */
    method Get(pageId: string) returns (page: Page)
      requires Valid()
      ensures page.id == pageId
      ensures page == StoredPage(memoryPages, pageId)
      ensures pageId !in memoryPages ==> |page.html| == 1
    {
      if pageId in memoryPages {
        page := memoryPages[pageId];
      } else {
        page := Page(pageId, [DefaultHtml]);
      }
    }

    /** `put`: the page becomes a one-item list, whatever it held before. */
    method Put(pageId: string, html: string)
      requires Valid()
      modifies this
      ensures Valid()
      ensures memoryPages == old(memoryPages)[pageId := Page(pageId, [html])]
    {
      memoryPages := memoryPages[pageId := Page(pageId, [html])];
    }

    /** `del`: every item equal to `html` is dropped. For an id that is not
        stored, `memoryPages.get(pageId).html` throws: `ok` is false and
        nothing changes. */
    method Del(pageId: string, html: string) returns (ok: bool)
      requires Valid()
      modifies this
      ensures Valid()
      ensures ok <==> pageId in old(memoryPages)
      ensures ok ==> memoryPages == old(memoryPages)[pageId := Page(pageId, Without(old(memoryPages)[pageId].html, html))]
      ensures !ok ==> memoryPages == old(memoryPages)
    {
      if pageId !in memoryPages {
        return false;
      }
      memoryPages := memoryPages[pageId := Page(pageId, Without(memoryPages[pageId].html, html))];
      ok := true;
    }

    /** `rep`: the first item equal to `oldHtmlItem` becomes `newHtmlItem`.
        For an id that is not stored the spread of `undefined` throws: `ok`
        is false and nothing changes. */
    method Rep(pageId: string, oldHtmlItem: string, newHtmlItem: string) returns (ok: bool)
      requires Valid()
      modifies this
      ensures Valid()
      ensures ok <==> pageId in old(memoryPages)
      ensures ok ==> memoryPages == old(memoryPages)[pageId := Page(pageId, Replaced(old(memoryPages)[pageId].html, oldHtmlItem, newHtmlItem))]
      ensures !ok ==> memoryPages == old(memoryPages)
    {
      if pageId !in memoryPages {
        return false;
      }
      var newHtml := memoryPages[pageId].html;
      var idx := IndexOfItem(newHtml, oldHtmlItem);
      if idx >= 0 {
        newHtml := newHtml[idx := newHtmlItem];
      }
      memoryPages := memoryPages[pageId := Page(pageId, newHtml)];
      ok := true;
    }
  }

  /** `indexOf` finds the first occurrence, or reports that there is none. */
  lemma {:induction false} IndexOfItemSpec(items: seq<string>, x: string)
    ensures IndexOfItem(items, x) >= 0 ==> items[IndexOfItem(items, x)] == x
    ensures forall j | 0 <= j < |items| && (IndexOfItem(items, x) < 0 || j < IndexOfItem(items, x)) :: items[j] != x
    decreases |items|
  {
    if items != [] && items[0] != x {
      IndexOfItemSpec(items[1..], x);
      forall j | 1 <= j < |items| ensures items[j] == items[1..][j - 1] { }
    }
  }

  /** `del` leaves no item equal to `h`, keeps every other item with its
      number of occurrences, and keeps their order. */
  lemma {:induction false} WithoutSpec(items: seq<string>, h: string)
    ensures h !in Without(items, h)
    ensures forall x | x != h :: multiset(Without(items, h))[x] == multiset(items)[x]
    ensures multiset(Without(items, h))[h] == 0
    ensures |Without(items, h)| == |items| - multiset(items)[h]
    decreases |items|
  {
    if items != [] {
      WithoutSpec(items[1..], h);
      assert items == [items[0]] + items[1..];
    }
  }

  /** The items `del` keeps appear in the same relative order: the result is
      the list with some items removed. */
  predicate IsSublist(r: seq<string>, s: seq<string>)
    decreases |s|
  {
    r == [] || (s != [] && ((r[0] == s[0] && IsSublist(r[1..], s[1..])) || IsSublist(r, s[1..])))
  }

  lemma {:induction false} WithoutKeepsOrder(items: seq<string>, h: string)
    ensures IsSublist(Without(items, h), items)
    decreases |items|
  {
    if items != [] {
      WithoutKeepsOrder(items[1..], h);
      var r := Without(items, h);
      if items[0] != h {
        assert r == [items[0]] + Without(items[1..], h);
        assert r[0] == items[0] && r[1..] == Without(items[1..], h);
      } else {
        assert r == Without(items[1..], h);
      }
    }
  }

  /** `rep` keeps the length; it writes `newItem` at the first occurrence of
      `oldItem` and changes no other position; with no occurrence it changes
      nothing. */
  lemma ReplacedSpec(items: seq<string>, oldItem: string, newItem: string)
    ensures |Replaced(items, oldItem, newItem)| == |items|
    ensures oldItem !in items ==> Replaced(items, oldItem, newItem) == items
    ensures oldItem in items ==>
      var idx := IndexOfItem(items, oldItem);
      0 <= idx && items[idx] == oldItem && (forall j | 0 <= j < idx :: items[j] != oldItem) &&
      Replaced(items, oldItem, newItem)[idx] == newItem &&
      forall j | 0 <= j < |items| && j != idx :: Replaced(items, oldItem, newItem)[j] == items[j]
  {
    IndexOfItemSpec(items, oldItem);
    if oldItem in items {
      var j :| 0 <= j < |items| && items[j] == oldItem;
    }
  }

  /** `get` after `put` returns the page just stored, and the pages of
      other ids read the same as before. */
  lemma PutThenGet(pages: map<string, Page>, pageId: string, html: string, other: string)
    ensures StoredPage(pages[pageId := Page(pageId, [html])], pageId) == Page(pageId, [html])
    ensures other != pageId ==>
      StoredPage(pages[pageId := Page(pageId, [html])], other) == StoredPage(pages, other)
  {
  }
}

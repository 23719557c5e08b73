/**
 * The assembler `recortar_items_con_contexto_streamlit` (App_recorte.py:67-120):
 * for each requested item number it crops the governing context's region (if
 * any) and then the item's own region out of the source document, each as one
 * new page of the output document, full page width.
 */
module Assembler {
  import opened Wrappers
  import opened Layout
  import opened ItemIndexer
  import opened ContextIndexer

  /** A full-width horizontal strip of a source page, from y `top` down to y `bottom`. */
  datatype Region = Region(page: nat, top: real, bottom: real)

  /** A page of the output document: the source page's width, showing the clipped region. */
  datatype OutPage = OutPage(width: real, clip: Region)

  /** `margen_superior`'s default: crops start slightly above the detected block. */
  const DefaultMargin: real := -10.0

  /** The output document `nuevo_pdf`; `new_page` plus `show_pdf_page` appends one page. */
  class OutputDocument {
    var pages: seq<OutPage>

    constructor ()
      ensures pages == []
    {
      pages := [];
    }

    method NewPage(width: real, clip: Region)
      modifies this
      ensures pages == old(pages) + [OutPage(width, clip)]
    {
      pages := pages + [OutPage(width, clip)];
    }
  }

  /** Every page the catalogues mention is a page of the document. */
  predicate OnDocument(doc: Document, index: seq<ItemEntry>, contexts: seq<ContextEntry>)
  {
    && (forall e | e in index :: e.page < |doc|)
    && (forall c | c in contexts :: c.page < |doc|)
  }

  // ---------------------------------------------------------------------------
  // The searches the assembler performs

  /**
   * `items_dict = {item["item"]: item for item in indice_items}`: every number of
   * the index is a key, and each key maps to an entry of the index with that number.
   */
  function Lookup(index: seq<ItemEntry>): (m: map<nat, ItemEntry>)
    ensures forall n | n in m :: m[n].item == n && m[n] in index
    ensures forall e | e in index :: e.item in m
    decreases |index|
  {
    if index == [] then map[]
    else
      var last := index[|index| - 1];
      var m := Lookup(index[..|index| - 1]);
      assert forall e | e in index :: e in index[..|index| - 1] || e == last;
      m[last.item := last]
  }

  /**
   * `mismos[0]` where `mismos` are the entries, in index order, numbered above n
   * and on page `page`.
   */
  function NextOnPage(index: seq<ItemEntry>, n: nat, page: nat): Option<ItemEntry>
    decreases |index|
  {
    if index == [] then None
    else if index[0].item > n && index[0].page == page then Some(index[0])
    else NextOnPage(index[1..], n, page)
  }

  /** `c["desde"] <= item_id <= c["hasta"]`. */
  predicate Covers(c: ContextEntry, n: nat)
  {
    c.from <= n <= c.to
  }

  /** The first context, from position k on, whose range covers n. */
  function FirstContextFrom(contexts: seq<ContextEntry>, n: nat, k: nat): Option<ContextEntry>
    decreases |contexts| - k
  {
    if k >= |contexts| then None
    else if Covers(contexts[k], n) then Some(contexts[k])
    else FirstContextFrom(contexts, n, k + 1)
  }

  /** `contexto_relevante`: the first context in stored order whose range covers n. */
  function FirstContext(contexts: seq<ContextEntry>, n: nat): Option<ContextEntry>
  {
    FirstContextFrom(contexts, n, 0)
  }

  // ---------------------------------------------------------------------------
  // The regions of one request

  /** Item n's region, for its looked-up entry e (App_recorte.py:78-84). */
  function ItemRegion(doc: Document, index: seq<ItemEntry>, e: ItemEntry, n: nat, margin: real): Region
    requires e.page < |doc|
  {
    var bottom := match NextOnPage(index, n, e.page)
      case Some(f) => f.y
      case None => doc[e.page].height;
    Region(e.page, e.y + margin, bottom)
  }

  /** The region of context c (App_recorte.py:94-103). */
  function ContextRegion(doc: Document, items: map<nat, ItemEntry>, c: ContextEntry, margin: real): Region
    requires c.page < |doc|
  {
    var bottom := if c.from in items && items[c.from].page == c.page then items[c.from].y else doc[c.page].height;
    Region(c.page, c.y + margin, bottom)
  }

  /** `bloques` for request n: nothing for an unknown number, else the context's region, if any, then the item's. */
  function RequestRegions(doc: Document, index: seq<ItemEntry>, contexts: seq<ContextEntry>, n: nat, margin: real)
    : (rs: seq<Region>)
    requires OnDocument(doc, index, contexts)
    ensures |rs| <= 2
    ensures forall r | r in rs :: r.page < |doc|
  {
    var items := Lookup(index);
    if n !in items then []
    else
      var e := items[n];
      var own := ItemRegion(doc, index, e, n, margin);
      match FirstContext(contexts, n)
      case None => [own]
      case Some(c) =>
        FirstContextIn(contexts, n);
        [ContextRegion(doc, items, c, margin), own]
  }

  /** One output page per region, as wide as the region's source page. */
  function PagesOf(doc: Document, rs: seq<Region>): (ps: seq<OutPage>)
    requires forall r | r in rs :: r.page < |doc|
    decreases |rs|
  {
    if rs == [] then []
    else
      var r := rs[|rs| - 1];
      PagesOf(doc, rs[..|rs| - 1]) + [OutPage(doc[r.page].width, r)]
  }

  /** The sequences f gives for the elements of xs, concatenated in order. */
  function ConcatMap<A, B>(xs: seq<A>, f: A --> seq<B>): seq<B>
    requires forall i | 0 <= i < |xs| :: f.requires(xs[i])
    decreases |xs|
  {
    if xs == [] then [] else ConcatMap(xs[..|xs| - 1], f) + f(xs[|xs| - 1])
  }

  /** The pages one request adds to the output document. */
  function RequestPages(doc: Document, index: seq<ItemEntry>, contexts: seq<ContextEntry>, margin: real)
    : nat --> seq<OutPage>
  {
    (n: nat) requires OnDocument(doc, index, contexts) => PagesOf(doc, RequestRegions(doc, index, contexts, n, margin))
  }

  /** The pages of the output document for the requests, in request order. */
  function Output(doc: Document, index: seq<ItemEntry>, contexts: seq<ContextEntry>, requests: seq<nat>, margin: real)
    : seq<OutPage>
    requires OnDocument(doc, index, contexts)
  {
    ConcatMap(requests, RequestPages(doc, index, contexts, margin))
  }

  // ---------------------------------------------------------------------------
  // The assembler

  /**
   * `recortar_items_con_contexto_streamlit`: builds the lookup, then for each
   * request appends the pages of its regions to a new output document, skipping
   * numbers the lookup does not know.
   */
  method CropItemsWithContext(doc: Document, index: seq<ItemEntry>, contexts: seq<ContextEntry>,
                              requests: seq<nat>, margin: real) returns (out: OutputDocument)
    requires OnDocument(doc, index, contexts)
    ensures fresh(out)
    ensures out.pages == Output(doc, index, contexts, requests, margin)
  {
    out := new OutputDocument();
    var items := BuildLookup(index);
    for r := 0 to |requests|
      invariant out.pages == Output(doc, index, contexts, requests[..r], margin)
    {
      var n := requests[r];
      OutputStep(doc, index, contexts, requests, r, margin);
      if n !in items {
        continue;
      }
      var regions := CropRegions(doc, index, items, contexts, n, margin);
      ShowRegions(out, doc, regions);
    }
    assert requests[..|requests|] == requests;
  }

  /** `items_dict`, built entry by entry in index order. */
  method BuildLookup(index: seq<ItemEntry>) returns (items: map<nat, ItemEntry>)
    ensures items == Lookup(index)
  {
    items := map[];
    for i := 0 to |index|
      invariant items == Lookup(index[..i])
    {
      assert index[..i + 1][..i] == index[..i] && index[..i + 1][i] == index[i];
      items := items[index[i].item := index[i]];
    }
    assert index[..|index|] == index;
  }

  /** `for bloque in bloques`: one new page per region, showing that strip of its source page. */
  method ShowRegions(out: OutputDocument, doc: Document, regions: seq<Region>)
    requires forall r | r in regions :: r.page < |doc|
    modifies out
    ensures out.pages == old(out.pages) + PagesOf(doc, regions)
  {
    for b := 0 to |regions|
      invariant out.pages == old(out.pages) + PagesOf(doc, regions[..b])
    {
      assert regions[..b + 1][..b] == regions[..b];
      out.NewPage(doc[regions[b].page].width, regions[b]);
    }
    assert regions[..|regions|] == regions;
  }

  /**
   * `bloques` for a number the lookup knows: the item's region, preceded by the
   * region of the first context covering the number, found by an early-exit scan.
   */
  method CropRegions(doc: Document, index: seq<ItemEntry>, items: map<nat, ItemEntry>, contexts: seq<ContextEntry>,
                     n: nat, margin: real) returns (regions: seq<Region>)
    requires OnDocument(doc, index, contexts)
    requires items == Lookup(index) && n in items
    ensures regions == RequestRegions(doc, index, contexts, n, margin)
  {
    var actual := items[n];
    var y1 := actual.y + margin;
    var next := NextOnPage(index, n, actual.page);
    var y2 := if next.Some? then next.value.y else doc[actual.page].height;

    var found: Option<ContextEntry> := None;
    var k := 0;
    while k < |contexts|
      invariant k <= |contexts|
      invariant found.None? ==> FirstContextFrom(contexts, n, k) == FirstContext(contexts, n)
      invariant found.Some? ==> found == FirstContext(contexts, n)
    {
      if Covers(contexts[k], n) {
        found := Some(contexts[k]);
        break;
      }
      k := k + 1;
    }

    regions := [];
    if found.Some? {
      var c := found.value;
      FirstContextIn(contexts, n);
      var start := if c.from in items then Some(items[c.from]) else None;
      var yc2 := if start.Some? && start.value.page == c.page then start.value.y else doc[c.page].height;
      regions := regions + [Region(c.page, c.y + margin, yc2)];
    }
    regions := regions + [Region(actual.page, y1, y2)];
  }

  // ---------------------------------------------------------------------------
  // Properties

  lemma FirstContextIn(contexts: seq<ContextEntry>, n: nat)
    ensures FirstContext(contexts, n).Some? ==> FirstContext(contexts, n).value in contexts
  {
    FirstContextIsFirst(contexts, n, 0);
  }

  lemma ConcatMapStep<A, B>(xs: seq<A>, r: nat, f: A --> seq<B>)
    requires r < |xs|
    requires forall i | 0 <= i < |xs| :: f.requires(xs[i])
    ensures ConcatMap(xs[..r + 1], f) == ConcatMap(xs[..r], f) + f(xs[r])
  {
    assert xs[..r + 1][..r] == xs[..r];
  }

  lemma OutputStep(doc: Document, index: seq<ItemEntry>, contexts: seq<ContextEntry>, requests: seq<nat>, r: nat,
                   margin: real)
    requires OnDocument(doc, index, contexts)
    requires r < |requests|
    ensures Output(doc, index, contexts, requests[..r + 1], margin)
      == Output(doc, index, contexts, requests[..r], margin)
        + PagesOf(doc, RequestRegions(doc, index, contexts, requests[r], margin))
  {
    ConcatMapStep(requests, r, RequestPages(doc, index, contexts, margin));
  }

  /**
   * The first-match search: from position k, it returns the earliest context that
   * covers n, and nothing exactly when no context from k on covers n.
   */
  lemma {:induction false} FirstContextIsFirst(contexts: seq<ContextEntry>, n: nat, k: nat)
    ensures FirstContextFrom(contexts, n, k).None? <==> forall i | k <= i < |contexts| :: !Covers(contexts[i], n)
    ensures FirstContextFrom(contexts, n, k).Some? ==>
      exists i | k <= i < |contexts| :: contexts[i] == FirstContextFrom(contexts, n, k).value && Covers(contexts[i], n)
        && forall l | k <= l < i :: !Covers(contexts[l], n)
    decreases |contexts| - k
  {
    if k < |contexts| && !Covers(contexts[k], n) {
      FirstContextIsFirst(contexts, n, k + 1);
      if FirstContextFrom(contexts, n, k).Some? {
        var i :| k + 1 <= i < |contexts| && contexts[i] == FirstContextFrom(contexts, n, k).value
          && Covers(contexts[i], n) && forall l | k + 1 <= l < i :: !Covers(contexts[l], n);
        assert forall l | k <= l < i :: !Covers(contexts[l], n);
      }
    }
  }

  /**
   * The governing context of n is the first entry in stored order whose range
   * covers n; there is none exactly when no entry covers n.
   */
  lemma FirstContextSpec(contexts: seq<ContextEntry>, n: nat)
    ensures FirstContext(contexts, n).None? <==> forall i | 0 <= i < |contexts| :: !Covers(contexts[i], n)
    ensures FirstContext(contexts, n).Some? ==>
      exists i | 0 <= i < |contexts| :: contexts[i] == FirstContext(contexts, n).value && Covers(contexts[i], n)
        && forall l | 0 <= l < i :: !Covers(contexts[l], n)
  {
    FirstContextIsFirst(contexts, n, 0);
  }

  /** The number lookup: a number is a key exactly when some entry of the index carries it. */
  lemma LookupKeys(index: seq<ItemEntry>, n: nat)
    ensures n in Lookup(index) <==> exists e | e in index :: e.item == n
  {
    if n in Lookup(index) {
      assert Lookup(index)[n] in index;
    }
  }

  /** For a duplicated number, the lookup holds the entry latest in the index. */
  lemma {:induction false} LookupLastWins(index: seq<ItemEntry>, i: nat)
    requires i < |index|
    requires forall k | i < k < |index| :: index[k].item != index[i].item
    ensures Lookup(index)[index[i].item] == index[i]
    decreases |index|
  {
    if i < |index| - 1 {
      var init := index[..|index| - 1];
      assert forall k | i < k < |init| :: init[k] == index[k];
      LookupLastWins(init, i);
    }
  }

  /**
   * The successor search: from the index order, it returns the first entry numbered
   * above n on the page, and nothing exactly when the page holds no such entry.
   */
  lemma {:induction false} NextOnPageSpec(index: seq<ItemEntry>, n: nat, page: nat)
    ensures NextOnPage(index, n, page).None? <==>
      forall i | 0 <= i < |index| :: !(index[i].item > n && index[i].page == page)
    ensures NextOnPage(index, n, page).Some? ==>
      exists i | 0 <= i < |index| :: index[i] == NextOnPage(index, n, page).value
        && index[i].item > n && index[i].page == page
        && forall l | 0 <= l < i :: !(index[l].item > n && index[l].page == page)
    decreases |index|
  {
    if index != [] && !(index[0].item > n && index[0].page == page) {
      var rest := index[1..];
      NextOnPageSpec(rest, n, page);
      assert forall i | 1 <= i < |index| :: index[i] == rest[i - 1];
      if NextOnPage(index, n, page).Some? {
        var i :| 0 <= i < |rest| && rest[i] == NextOnPage(index, n, page).value
          && rest[i].item > n && rest[i].page == page
          && forall l | 0 <= l < i :: !(rest[l].item > n && rest[l].page == page);
        assert index[i + 1] == rest[i];
        assert forall l | 0 <= l < i + 1 :: !(index[l].item > n && index[l].page == page) by {
          forall l | 0 <= l < i + 1 ensures !(index[l].item > n && index[l].page == page) {
            if l > 0 { assert index[l] == rest[l - 1]; }
          }
        }
      }
    }
  }

  /**
   * On an index sorted by number (as the item indexer returns it), the successor
   * search finds the smallest number above n on the page.
   */
  lemma NextOnPageSmallest(index: seq<ItemEntry>, n: nat, page: nat)
    requires forall i, j | 0 <= i < j < |index| :: index[i].item <= index[j].item
    ensures NextOnPage(index, n, page).Some? ==>
      forall f | f in index && f.item > n && f.page == page :: NextOnPage(index, n, page).value.item <= f.item
  {
    NextOnPageSpec(index, n, page);
    if NextOnPage(index, n, page).Some? {
      var i :| 0 <= i < |index| && index[i] == NextOnPage(index, n, page).value
        && index[i].item > n && index[i].page == page
        && forall l | 0 <= l < i :: !(index[l].item > n && index[l].page == page);
      forall f | f in index && f.item > n && f.page == page ensures index[i].item <= f.item {
        var j :| 0 <= j < |index| && index[j] == f;
        assert i <= j;
      }
    }
  }

  lemma {:induction false} ConcatMapAppend<A, B>(xs: seq<A>, ys: seq<A>, f: A --> seq<B>)
    requires forall i | 0 <= i < |xs| :: f.requires(xs[i])
    requires forall i | 0 <= i < |ys| :: f.requires(ys[i])
    ensures forall i | 0 <= i < |xs + ys| :: f.requires((xs + ys)[i])
    ensures ConcatMap(xs + ys, f) == ConcatMap(xs, f) + ConcatMap(ys, f)
    decreases |ys|
  {
    assert forall i | 0 <= i < |xs + ys| :: (xs + ys)[i] == if i < |xs| then xs[i] else ys[i - |xs|];
    if ys == [] {
      assert xs + ys == xs;
    } else {
      var init := ys[..|ys| - 1];
      ConcatMapAppend(xs, init, f);
      assert (xs + ys)[..|xs + ys| - 1] == xs + init;
    }
  }

  /** A single request's output is the pages of its regions. */
  lemma OutputSingle(doc: Document, index: seq<ItemEntry>, contexts: seq<ContextEntry>, n: nat, margin: real)
    requires OnDocument(doc, index, contexts)
    ensures Output(doc, index, contexts, [n], margin) == PagesOf(doc, RequestRegions(doc, index, contexts, n, margin))
  {
    OutputStep(doc, index, contexts, [n], 0, margin);
    assert [n][..1] == [n] && [n][..0] == [];
  }

  /** Requests are served in order: the output of two request lists is the concatenation of theirs. */
  lemma OutputConcat(doc: Document, index: seq<ItemEntry>, contexts: seq<ContextEntry>,
                     rs1: seq<nat>, rs2: seq<nat>, margin: real)
    requires OnDocument(doc, index, contexts)
    ensures Output(doc, index, contexts, rs1 + rs2, margin)
      == Output(doc, index, contexts, rs1, margin) + Output(doc, index, contexts, rs2, margin)
  {
    ConcatMapAppend(rs1, rs2, RequestPages(doc, index, contexts, margin));
  }

  /** A number absent from the index adds no page and leaves the other requests' pages as they are. */
  lemma UnknownRequestSkipped(doc: Document, index: seq<ItemEntry>, contexts: seq<ContextEntry>,
                              rs1: seq<nat>, n: nat, rs2: seq<nat>, margin: real)
    requires OnDocument(doc, index, contexts)
    requires forall e | e in index :: e.item != n
    ensures Output(doc, index, contexts, rs1 + [n] + rs2, margin) == Output(doc, index, contexts, rs1 + rs2, margin)
  {
    LookupKeys(index, n);
    UnknownRequestNoPages(doc, index, contexts, n, margin);
    OutputConcat(doc, index, contexts, rs1 + [n], rs2, margin);
    OutputConcat(doc, index, contexts, rs1, [n], margin);
    OutputConcat(doc, index, contexts, rs1, rs2, margin);
  }

  lemma UnknownRequestNoPages(doc: Document, index: seq<ItemEntry>, contexts: seq<ContextEntry>, n: nat, margin: real)
    requires OnDocument(doc, index, contexts) && n !in Lookup(index)
    ensures Output(doc, index, contexts, [n], margin) == []
  {
    var f := RequestPages(doc, index, contexts, margin);
    assert [n][..0] == [] && [n][0] == n;
    assert ConcatMap([n], f) == ConcatMap([n][..0], f) + f(n);
    assert RequestRegions(doc, index, contexts, n, margin) == [];
    assert f(n) == [];
  }

  lemma {:induction false} PagesOfSpec(doc: Document, rs: seq<Region>)
    requires forall r | r in rs :: r.page < |doc|
    ensures |PagesOf(doc, rs)| == |rs|
    ensures forall i | 0 <= i < |rs| :: PagesOf(doc, rs)[i] == OutPage(doc[rs[i].page].width, rs[i])
    decreases |rs|
  {
    if rs != [] {
      var init := rs[..|rs| - 1];
      PagesOfSpec(doc, init);
      assert forall i | 0 <= i < |init| :: init[i] == rs[i];
    }
  }

  /**
   * A request whose number is in the index yields one page, or two when a context
   * covers the number: the context's page first, then the item's. Each page has
   * the width of its source page.
   */
  lemma FoundRequestPages(doc: Document, index: seq<ItemEntry>, contexts: seq<ContextEntry>, n: nat, margin: real)
    requires OnDocument(doc, index, contexts)
    requires exists e | e in index :: e.item == n
    ensures var ps := Output(doc, index, contexts, [n], margin);
      var e := Lookup(index)[n];
      && |ps| == (if FirstContext(contexts, n).Some? then 2 else 1)
      && ps[|ps| - 1] == OutPage(doc[e.page].width, ItemRegion(doc, index, e, n, margin))
      && (FirstContext(contexts, n).Some? ==>
            ps[0] == OutPage(doc[FirstContext(contexts, n).value.page].width,
                             ContextRegion(doc, Lookup(index), FirstContext(contexts, n).value, margin)))
  {
    LookupKeys(index, n);
    OutputSingle(doc, index, contexts, n, margin);
    var rs := RequestRegions(doc, index, contexts, n, margin);
    PagesOfSpec(doc, rs);
  }

  /**
   * The item's region starts margin above its entry and ends at the next item on
   * its page (the first in index order numbered above it), or at the bottom of the
   * page when no later-numbered item shares it.
   */
  lemma ItemRegionBounds(doc: Document, index: seq<ItemEntry>, e: ItemEntry, n: nat, margin: real)
    requires e.page < |doc|
    ensures ItemRegion(doc, index, e, n, margin).page == e.page
    ensures ItemRegion(doc, index, e, n, margin).top == e.y + margin
    ensures (forall f | f in index :: !(f.item > n && f.page == e.page)) ==>
      ItemRegion(doc, index, e, n, margin).bottom == doc[e.page].height
    ensures forall i | 0 <= i < |index| && index[i].item > n && index[i].page == e.page
        && (forall l | 0 <= l < i :: !(index[l].item > n && index[l].page == e.page)) ::
      ItemRegion(doc, index, e, n, margin).bottom == index[i].y
  {
    NextOnPageSpec(index, n, e.page);
    if NextOnPage(index, n, e.page).None? {
      forall f | f in index ensures !(f.item > n && f.page == e.page) {
        var j :| 0 <= j < |index| && index[j] == f;
      }
    } else {
      var i :| 0 <= i < |index| && index[i] == NextOnPage(index, n, e.page).value
        && index[i].item > n && index[i].page == e.page
        && forall l | 0 <= l < i :: !(index[l].item > n && index[l].page == e.page);
      forall i' | 0 <= i' < |index| && index[i'].item > n && index[i'].page == e.page
          && (forall l | 0 <= l < i' :: !(index[l].item > n && index[l].page == e.page))
        ensures index[i'].y == index[i].y
      {
        assert i <= i' && i' <= i;
      }
    }
  }

  /**
   * The context's region starts margin above the context block. It ends at the
   * entry the lookup holds for `from` (the last one numbered `from` in the index)
   * when that entry is on the context's page, and at the bottom of the context's
   * page when it is on another page or when no entry is numbered `from`.
   */
  lemma ContextRegionBounds(doc: Document, index: seq<ItemEntry>, c: ContextEntry, margin: real)
    requires c.page < |doc|
    ensures ContextRegion(doc, Lookup(index), c, margin).page == c.page
    ensures ContextRegion(doc, Lookup(index), c, margin).top == c.y + margin
    ensures forall i | 0 <= i < |index| && index[i].item == c.from && index[i].page == c.page
        && (forall k | i < k < |index| :: index[k].item != c.from) ::
      ContextRegion(doc, Lookup(index), c, margin).bottom == index[i].y
    ensures forall i | 0 <= i < |index| && index[i].item == c.from && index[i].page != c.page
        && (forall k | i < k < |index| :: index[k].item != c.from) ::
      ContextRegion(doc, Lookup(index), c, margin).bottom == doc[c.page].height
    ensures (forall e | e in index :: e.item != c.from) ==>
      ContextRegion(doc, Lookup(index), c, margin).bottom == doc[c.page].height
  {
    forall i | 0 <= i < |index| && index[i].item == c.from
        && (forall k | i < k < |index| :: index[k].item != c.from)
      ensures Lookup(index)[c.from] == index[i]
    {
      LookupLastWins(index, i);
    }
    if c.from in Lookup(index) {
      assert Lookup(index)[c.from] in index;
    }
  }

  /** Requesting a number twice repeats its pages. */
  lemma RepeatedRequestRepeats(doc: Document, index: seq<ItemEntry>, contexts: seq<ContextEntry>, n: nat, margin: real)
    requires OnDocument(doc, index, contexts)
    ensures Output(doc, index, contexts, [n, n], margin)
      == Output(doc, index, contexts, [n], margin) + Output(doc, index, contexts, [n], margin)
  {
    OutputConcat(doc, index, contexts, [n], [n], margin);
    assert [n] + [n] == [n, n];
  }

  /** The catalogues the two indexers build only mention pages of the document. */
  lemma IndexesOnDocument(doc: Document, skipFirst: bool)
    ensures OnDocument(doc, ItemIndex(doc, skipFirst), ContextIndex(doc, skipFirst))
  {
    ItemIndexBounds(doc, skipFirst);
    ContextIndexOrder(doc, skipFirst);
  }

  /**
   * Item 5 at y 100 and item 6 at y 300 on page 2, with a context for items 5 to
   * 8 at y 50 on the same page: requesting 5 crops the context from 40 to 100,
   * then the item from 90 to 300; requesting 999 crops nothing.
   */
  lemma ContextAttributionExample()
    ensures var doc := [Page(600.0, 800.0, []), Page(600.0, 800.0, []), Page(600.0, 800.0, [])];
      var index := [ItemEntry(5, 2, 100.0), ItemEntry(6, 2, 300.0)];
      var contexts := [ContextEntry(2, 50.0, 5, 8, "RESPONDA LAS PREGUNTAS 5 A 8")];
      && OnDocument(doc, index, contexts)
      && Output(doc, index, contexts, [5], DefaultMargin)
        == [OutPage(600.0, Region(2, 40.0, 100.0)), OutPage(600.0, Region(2, 90.0, 300.0))]
      && Output(doc, index, contexts, [999], DefaultMargin) == []
  {
    var doc := [Page(600.0, 800.0, []), Page(600.0, 800.0, []), Page(600.0, 800.0, [])];
    var index := [ItemEntry(5, 2, 100.0), ItemEntry(6, 2, 300.0)];
    var contexts := [ContextEntry(2, 50.0, 5, 8, "RESPONDA LAS PREGUNTAS 5 A 8")];
    assert index[..1] == [ItemEntry(5, 2, 100.0)];
    assert Lookup(index) == map[5 := ItemEntry(5, 2, 100.0), 6 := ItemEntry(6, 2, 300.0)];
    assert NextOnPage(index, 5, 2) == Some(ItemEntry(6, 2, 300.0));
    assert FirstContext(contexts, 5) == Some(contexts[0]);
    OutputSingle(doc, index, contexts, 5, DefaultMargin);
    OutputSingle(doc, index, contexts, 999, DefaultMargin);
    var rs := RequestRegions(doc, index, contexts, 5, DefaultMargin);
    assert rs == [Region(2, 40.0, 100.0), Region(2, 90.0, 300.0)];
    assert rs[..1] == [Region(2, 40.0, 100.0)];
  }
}

/**
 * The item indexer `indexar_items` (App_recorte.py:19-39): every block of a
 * scanned page that opens a numbered question becomes an entry
 * `{item, pagina, y}`; the entries are then sorted by item number.
 */
module ItemIndexer {
  import opened Wrappers
  import opened Text
  import opened Patterns
  import opened Sorting
  import opened Layout

  datatype ItemEntry = ItemEntry(item: nat, page: nat, y: real)

  /** Blocks whose top lies below this line are footer text and never open an item. */
  const FooterY: real := 750.0

  /** Header and footer words: a block containing one of them (lower-cased) is skipped. */
  const StopWords: seq<string> := ["p\U{E1}gina", "cuadernillo", "n\U{FA}mero", "prueba"]

  /** `any(p in texto.lower() for p in [...])` over the words ws. */
  predicate ContainsAny(t: string, ws: seq<string>)
    decreases |ws|
  {
    ws != [] && (Contains(Lower(t), ws[0]) || ContainsAny(t, ws[1..]))
  }

  predicate HasStopWord(t: string)
  {
    ContainsAny(t, StopWords)
  }

  /**
   * The entry block b of page p contributes, if it opens an item
   * (App_recorte.py:26-38): its stripped text is tested, unless the block lies
   * below the footer line or mentions a stop word.
   */
  function ItemOf(p: nat, b: Block): Option<ItemEntry>
  {
    var t := Strip(b.text);
    if b.y > FooterY then None
    else if HasStopWord(t) then None
    else
      var n :- ItemNumber(t);
      Some(ItemEntry(n, p, b.y))
  }

  /** `page.get_text("blocks")` order, which the item indexer keeps. */
  function NativeOrder(bs: seq<Block>): seq<Block>
  {
    bs
  }

  /** The entries in the order the scan finds them, before sorting. */
  function Found(doc: Document, skipFirst: bool): seq<ItemEntry>
  {
    Gather(doc, FirstPage(skipFirst), |doc|, NativeOrder, ItemOf)
  }

  function ItemKey(e: ItemEntry): real
  {
    e.item as real
  }

  /** What `indexar_items(pdf, saltar_primera)` returns. */
  function ItemIndex(doc: Document, skipFirst: bool): seq<ItemEntry>
  {
    SortBy(Found(doc, skipFirst), ItemKey)
  }

  /** `indexar_items`: scans pages and blocks, appending to `indice`, then sorts it. */
  method IndexItems(doc: Document, skipFirst: bool) returns (index: seq<ItemEntry>)
    ensures index == ItemIndex(doc, skipFirst)
  {
    var found: seq<ItemEntry> := [];
    var first := FirstPage(skipFirst);
    var p := first;
    while p < |doc|
      invariant first <= p
      invariant p <= |doc| ==> found == Gather(doc, first, p, NativeOrder, ItemOf)
      invariant |doc| < p ==> p == first && found == []
    {
      var here := FindItemsOnPage(p, doc[p].blocks);
      found := found + here;
      GatherStep(doc, first, p, NativeOrder, ItemOf);
      p := p + 1;
    }
    index := SortBy(found, ItemKey);
  }

  /** One page of `indexar_items`: the item starts among its blocks, in block order. */
  method FindItemsOnPage(p: nat, blocks: seq<Block>) returns (found: seq<ItemEntry>)
    ensures found == Collect(p, blocks, ItemOf)
  {
    found := [];
    for j := 0 to |blocks|
      invariant found == Collect(p, blocks[..j], ItemOf)
    {
      var b := blocks[j];
      CollectStep(p, blocks, j, ItemOf);
      var t := Strip(b.text);
      if b.y > FooterY {
        continue;
      }
      if HasStopWord(t) {
        continue;
      }
      var m := ItemNumber(t);
      if m.Some? {
        found := found + [ItemEntry(m.value, p, b.y)];
      }
    }
    assert blocks[..|blocks|] == blocks;
  }

  // ---------------------------------------------------------------------------
  // Properties

  /**
   * Block j of page p opens item e: it lies at or above the footer line, its
   * lower-cased stripped text has no stop word, and that text starts with the
   * number e.item (one to three digits) followed by a period; e carries the
   * page and the block's y.
   */
  ghost predicate OpensItem(doc: Document, p: nat, j: nat, e: ItemEntry)
    requires p < |doc| && j < |doc[p].blocks|
  {
    var b := doc[p].blocks[j];
    var t := Strip(b.text);
    && b.y <= FooterY
    && !HasStopWord(t)
    && (exists k: nat :: NumberedAt(t, k) && e.item == DigitsValue(t[..k]))
    && e.page == p && e.y == b.y
  }

  /** ItemOf accepts a block exactly when the block opens an item, read literally. */
  lemma ItemOfSpec(doc: Document, p: nat, j: nat, e: ItemEntry)
    requires p < |doc| && j < |doc[p].blocks|
    ensures ItemOf(p, doc[p].blocks[j]) == Some(e) <==> OpensItem(doc, p, j, e)
  {
    var t := Strip(doc[p].blocks[j].text);
    ItemNumberSpec(t);
    if ItemOf(p, doc[p].blocks[j]) == Some(e) {
      var k: nat :| NumberedAt(t, k);
      assert e.item == DigitsValue(t[..k]);
    }
  }

  /**
   * Item detection: an entry is in the index exactly when some block of a
   * scanned page opens that item.
   */
  lemma ItemIndexMembers(doc: Document, skipFirst: bool, e: ItemEntry)
    ensures e in ItemIndex(doc, skipFirst) <==>
      exists p, j | FirstPage(skipFirst) <= p < |doc| && 0 <= j < |doc[p].blocks| :: OpensItem(doc, p, j, e)
  {
    var first := FirstPage(skipFirst);
    SortByMembers(Found(doc, skipFirst), ItemKey);
    GatherMembers(doc, first, |doc|, NativeOrder, ItemOf, e);
    if e in ItemIndex(doc, skipFirst) {
      var p, j :| first <= p < |doc| && 0 <= j < |NativeOrder(doc[p].blocks)|
        && ItemOf(p, NativeOrder(doc[p].blocks)[j]) == Some(e);
      ItemOfSpec(doc, p, j, e);
    }
    if exists p, j | first <= p < |doc| && 0 <= j < |doc[p].blocks| :: OpensItem(doc, p, j, e) {
      var p, j :| first <= p < |doc| && 0 <= j < |doc[p].blocks| && OpensItem(doc, p, j, e);
      ItemOfSpec(doc, p, j, e);
      assert NativeOrder(doc[p].blocks)[j] == doc[p].blocks[j];
    }
  }

  /**
   * Item index order: the index is ascending by item number, it is a permutation
   * of the entries in scan order, and for each number its entries (duplicates
   * are kept) stay in scan order.
   */
  lemma ItemIndexOrder(doc: Document, skipFirst: bool)
    ensures forall i, j | 0 <= i < j < |ItemIndex(doc, skipFirst)| ::
      ItemIndex(doc, skipFirst)[i].item <= ItemIndex(doc, skipFirst)[j].item
    ensures multiset(ItemIndex(doc, skipFirst)) == multiset(Found(doc, skipFirst))
    ensures forall k :: WithKey(ItemIndex(doc, skipFirst), ItemKey, k) == WithKey(Found(doc, skipFirst), ItemKey, k)
  {
    SortByFacts(Found(doc, skipFirst), ItemKey);
  }

  /** Every entry is on a scanned page and numbers an item below 1000. */
  lemma ItemIndexBounds(doc: Document, skipFirst: bool)
    ensures forall e | e in ItemIndex(doc, skipFirst) ::
      FirstPage(skipFirst) <= e.page < |doc| && e.item < 1000 && e.y <= FooterY
  {
    forall e | e in ItemIndex(doc, skipFirst)
      ensures FirstPage(skipFirst) <= e.page < |doc| && e.item < 1000 && e.y <= FooterY
    {
      ItemIndexMembers(doc, skipFirst, e);
      var p, j :| FirstPage(skipFirst) <= p < |doc| && 0 <= j < |doc[p].blocks| && OpensItem(doc, p, j, e);
      ItemNumberSpec(Strip(doc[p].blocks[j].text));
    }
  }
}

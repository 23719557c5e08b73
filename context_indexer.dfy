/**
 * The context indexer `indexar_contextos` (App_recorte.py:41-65): every block
 * announcing "RESPONDA LAS PREGUNTAS N A M" becomes an entry
 * `{pagina, y, desde, hasta, texto}`, scanning each page's blocks top to bottom.
 */
module ContextIndexer {
  import opened Wrappers
  import opened Text
  import opened Patterns
  import opened Sorting
  import opened Layout

  /** A shared passage governing items `from..to`; nothing requires from <= to. */
  datatype ContextEntry = ContextEntry(page: nat, y: real, from: nat, to: nat, text: string)

  function BlockTop(b: Block): real
  {
    b.y
  }

  /** `sorted(bloques, key=lambda b: b[1])`: a page's blocks, top to bottom, stable. */
  function TopDown(bs: seq<Block>): seq<Block>
  {
    SortBy(bs, BlockTop)
  }

  /**
   * The entry block b of page p contributes (App_recorte.py:49-63): blocks whose
   * stripped text is empty are skipped, the others are normalised and searched
   * for the marker.
   */
  function ContextOf(p: nat, b: Block): (r: Option<ContextEntry>)
    ensures r.Some? ==> r.value.page == p && r.value.y == b.y
  {
    var raw := Strip(b.text);
    if raw == [] then None
    else
      var t := CleanSpaces(raw);
      var m :- SearchRange(t);
      Some(ContextEntry(p, b.y, m.0, m.1, t))
  }

  /** What `indexar_contextos(pdf, saltar_primera)` returns. */
  function ContextIndex(doc: Document, skipFirst: bool): seq<ContextEntry>
  {
    Gather(doc, FirstPage(skipFirst), |doc|, TopDown, ContextOf)
  }

  /** `indexar_contextos`: scans pages and their sorted blocks, appending to `contextos`. */
  method IndexContexts(doc: Document, skipFirst: bool) returns (contexts: seq<ContextEntry>)
    ensures contexts == ContextIndex(doc, skipFirst)
  {
    contexts := [];
    var first := FirstPage(skipFirst);
    var p := first;
    while p < |doc|
      invariant first <= p
      invariant p <= |doc| ==> contexts == Gather(doc, first, p, TopDown, ContextOf)
      invariant |doc| < p ==> p == first && contexts == []
    {
      var found := FindContextsOnPage(p, TopDown(doc[p].blocks));
      GatherStep(doc, first, p, TopDown, ContextOf);
      contexts := contexts + found;
      p := p + 1;
    }
    if |doc| < p {
      assert Gather(doc, first, |doc|, TopDown, ContextOf) == [];
    }
  }

  /** One page of `indexar_contextos`: the markers of its blocks, visited in the given order. */
  method FindContextsOnPage(p: nat, blocks: seq<Block>) returns (found: seq<ContextEntry>)
    ensures found == Collect(p, blocks, ContextOf)
  {
    found := [];
    for j := 0 to |blocks|
      invariant found == Collect(p, blocks[..j], ContextOf)
    {
      var b := blocks[j];
      CollectStep(p, blocks, j, ContextOf);
      var raw := Strip(b.text);
      if raw == [] {
        continue;
      }
      var t := CleanSpaces(raw);
      var m := SearchRange(t);
      if m.Some? {
        found := found + [ContextEntry(p, b.y, m.value.0, m.value.1, t)];
      }
    }
    assert blocks[..|blocks|] == blocks;
  }

  // ---------------------------------------------------------------------------
  // Properties

  /**
   * Block j of page p announces context c: its text is not all whitespace, the
   * marker occurs in its normalised text with numbers c.from and c.to, and c
   * records the page, the block's y and that normalised text.
   */
  predicate AnnouncesContext(doc: Document, p: nat, j: nat, c: ContextEntry)
    requires p < |doc| && j < |doc[p].blocks|
  {
    var b := doc[p].blocks[j];
    && !AllSpace(b.text)
    && SearchRange(CleanSpaces(Strip(b.text))) == Some((c.from, c.to))
    && c == ContextEntry(p, b.y, c.from, c.to, CleanSpaces(Strip(b.text)))
  }

  lemma ContextOfSpec(doc: Document, p: nat, j: nat, c: ContextEntry)
    requires p < |doc| && j < |doc[p].blocks|
    ensures ContextOf(p, doc[p].blocks[j]) == Some(c) <==> AnnouncesContext(doc, p, j, c)
  {
    StripEmpty(doc[p].blocks[j].text);
  }

  /** Sorting a page's blocks keeps exactly its blocks. */
  lemma TopDownMembers()
    ensures forall bs: seq<Block>, b: Block :: b in TopDown(bs) <==> b in bs
  {
    forall bs: seq<Block> ensures forall b: Block :: b in TopDown(bs) <==> b in bs {
      SortByMembers(bs, BlockTop);
    }
  }

  /**
   * Context detection: an entry is in the catalogue exactly when some block of a
   * scanned page announces it.
   */
  lemma ContextIndexMembers(doc: Document, skipFirst: bool, c: ContextEntry)
    ensures c in ContextIndex(doc, skipFirst) <==>
      exists p, j | FirstPage(skipFirst) <= p < |doc| && 0 <= j < |doc[p].blocks| :: AnnouncesContext(doc, p, j, c)
  {
    TopDownMembers();
    GatherMembersReordered(doc, FirstPage(skipFirst), |doc|, TopDown, ContextOf, c);
    forall p, j | FirstPage(skipFirst) <= p < |doc| && 0 <= j < |doc[p].blocks|
      ensures ContextOf(p, doc[p].blocks[j]) == Some(c) <==> AnnouncesContext(doc, p, j, c)
    {
      ContextOfSpec(doc, p, j, c);
    }
  }

  /** Entries come page by page and, within a page, from the top down. */
  predicate InScanOrder(cs: seq<ContextEntry>)
  {
    forall i, j | 0 <= i < j < |cs| :: cs[i].page < cs[j].page || (cs[i].page == cs[j].page && cs[i].y <= cs[j].y)
  }

  /** A classifier that keeps the page and the block's y, as ContextOf does. */
  ghost predicate KeepsPlace(classify: (nat, Block) -> Option<ContextEntry>)
  {
    forall p: nat, b: Block :: classify(p, b).Some? ==> classify(p, b).value.page == p && classify(p, b).value.y == b.y
  }

  lemma {:induction false} CollectTopDown(p: nat, bs: seq<Block>, classify: (nat, Block) -> Option<ContextEntry>)
    requires KeepsPlace(classify)
    requires SortedBy(bs, BlockTop)
    ensures forall c | c in Collect(p, bs, classify) :: c.page == p && (bs != [] ==> c.y <= bs[|bs| - 1].y)
    ensures InScanOrder(Collect(p, bs, classify))
    decreases |bs|
  {
    if bs != [] {
      var init := bs[..|bs| - 1];
      var b := bs[|bs| - 1];
      assert SortedBy(init, BlockTop);
      CollectTopDown(p, init, classify);
      forall c | c in Collect(p, init, classify) ensures c.y <= b.y {
        CollectMembers(p, init, classify, c);
        var j :| 0 <= j < |init| && classify(p, init[j]) == Some(c);
        assert BlockTop(bs[j]) <= BlockTop(bs[|bs| - 1]);
      }
    }
  }

  /** Appending a page's entries after those of earlier pages keeps the scan order. */
  lemma ConcatInScanOrder(prev: seq<ContextEntry>, here: seq<ContextEntry>, lo: nat, p: nat)
    requires lo <= p
    requires InScanOrder(prev) && InScanOrder(here)
    requires forall c | c in prev :: lo <= c.page < p
    requires forall c | c in here :: c.page == p
    ensures InScanOrder(prev + here)
    ensures forall c | c in prev + here :: lo <= c.page <= p
  {
    var all: seq<ContextEntry> := prev + here;
    forall c | c in all ensures lo <= c.page <= p {
      assert c in prev || c in here;
    }
    forall i, j | 0 <= i < j < |all|
      ensures all[i].page < all[j].page || (all[i].page == all[j].page && all[i].y <= all[j].y)
    {
      if j < |prev| {
        assert all[i] == prev[i] && all[j] == prev[j];
      } else if i >= |prev| {
        assert all[i] == here[i - |prev|] && all[j] == here[j - |prev|];
      } else {
        assert all[i] in prev && all[j] in here;
      }
    }
  }

  lemma {:induction false} GatherInScanOrder(doc: Document, lo: nat, hi: nat, arrange: seq<Block> -> seq<Block>,
                                             classify: (nat, Block) -> Option<ContextEntry>)
    requires hi <= |doc|
    requires forall bs: seq<Block> :: SortedBy(arrange(bs), BlockTop)
    requires KeepsPlace(classify)
    ensures forall c | c in Gather(doc, lo, hi, arrange, classify) :: lo <= c.page < hi
    ensures InScanOrder(Gather(doc, lo, hi, arrange, classify))
    decreases hi
  {
    if lo < hi {
      GatherInScanOrder(doc, lo, hi - 1, arrange, classify);
      var bs := arrange(doc[hi - 1].blocks);
      CollectTopDown(hi - 1, bs, classify);
      ConcatInScanOrder(Gather(doc, lo, hi - 1, arrange, classify), Collect(hi - 1, bs, classify), lo, hi - 1);
    }
  }

  /**
   * Context index order: pages appear in ascending order and, within a page,
   * entries appear in ascending y; every entry is on a scanned page.
   */
  lemma ContextIndexOrder(doc: Document, skipFirst: bool)
    ensures InScanOrder(ContextIndex(doc, skipFirst))
    ensures forall c | c in ContextIndex(doc, skipFirst) :: FirstPage(skipFirst) <= c.page < |doc|
  {
    forall bs: seq<Block> ensures SortedBy(TopDown(bs), BlockTop) {
      SortByFacts(bs, BlockTop);
    }
    GatherInScanOrder(doc, FirstPage(skipFirst), |doc|, TopDown, ContextOf);
  }

  /** An announced entry's text is normalised and both of its numbers are below 1000. */
  lemma AnnouncedIsClean(doc: Document, p: nat, j: nat, c: ContextEntry)
    requires p < |doc| && j < |doc[p].blocks|
    requires AnnouncesContext(doc, p, j, c)
    ensures IsClean(c.text) && c.from < 1000 && c.to < 1000
  {
    CleanSpacesIsClean(Strip(doc[p].blocks[j].text));
    SearchRangeBounds(CleanSpaces(Strip(doc[p].blocks[j].text)));
  }

  /**
   * Every entry's text is normalised (single-spaced, no tab, newline or
   * no-break space, trimmed) and both of its numbers are below 1000.
   */
  lemma ContextIndexTexts(doc: Document, skipFirst: bool)
    ensures forall c | c in ContextIndex(doc, skipFirst) :: IsClean(c.text) && c.from < 1000 && c.to < 1000
  {
    forall c | c in ContextIndex(doc, skipFirst) ensures IsClean(c.text) && c.from < 1000 && c.to < 1000 {
      ContextIndexMembers(doc, skipFirst, c);
      var p, j :| FirstPage(skipFirst) <= p < |doc| && 0 <= j < |doc[p].blocks| && AnnouncesContext(doc, p, j, c);
      AnnouncedIsClean(doc, p, j, c);
    }
  }
}

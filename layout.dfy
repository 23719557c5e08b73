/**
 * The source PDF as the engine sees it: pages with a size and the text blocks
 * `page.get_text("blocks")` returns, each reduced to its top y (`b[1]`) and its
 * text (`b[4]`); and the page-by-block scan both indexers share
 * (App_recorte.py:22-25 and 44-48).
 */
module Layout {
  import opened Wrappers

  datatype Block = Block(y: real, text: string)

  datatype Page = Page(width: real, height: real, blocks: seq<Block>)

  type Document = seq<Page>

  /** `range(1 if saltar_primera else 0, len(pdf))` starts here: the cover page is skipped by default. */
  function FirstPage(skipFirst: bool): nat
  {
    if skipFirst then 1 else 0
  }

  /** What classify gives for the blocks bs of page p, in block order, skipping the blocks it rejects. */
  function Collect<T>(p: nat, bs: seq<Block>, classify: (nat, Block) -> Option<T>): seq<T>
    decreases |bs|
  {
    if bs == [] then []
    else
      var b := bs[|bs| - 1];
      Collect(p, bs[..|bs| - 1], classify) + (match classify(p, b) case Some(x) => [x] case None => [])
  }

  /**
   * What classify gives for the blocks of pages lo..hi-1, in page order; each
   * page's blocks are visited in the order arrange puts them in.
   */
  function Gather<T>(doc: Document, lo: nat, hi: nat, arrange: seq<Block> -> seq<Block>,
                     classify: (nat, Block) -> Option<T>): seq<T>
    requires hi <= |doc|
    decreases hi
  {
    if hi <= lo then []
    else Gather(doc, lo, hi - 1, arrange, classify) + Collect(hi - 1, arrange(doc[hi - 1].blocks), classify)
  }

  /** Visiting one more block of a page: classify's verdict on it is appended. */
  lemma CollectStep<T>(p: nat, bs: seq<Block>, j: nat, classify: (nat, Block) -> Option<T>)
    requires j < |bs|
    ensures Collect(p, bs[..j + 1], classify) ==
      Collect(p, bs[..j], classify) + (match classify(p, bs[j]) case Some(x) => [x] case None => [])
  {
    assert bs[..j + 1][..j] == bs[..j];
  }

  /** Visiting one more page: its blocks' verdicts, in arranged order, are appended. */
  lemma GatherStep<T>(doc: Document, lo: nat, hi: nat, arrange: seq<Block> -> seq<Block>,
                      classify: (nat, Block) -> Option<T>)
    requires lo <= hi < |doc|
    ensures Gather(doc, lo, hi + 1, arrange, classify) ==
      Gather(doc, lo, hi, arrange, classify) + Collect(hi, arrange(doc[hi].blocks), classify)
  {
  }

  lemma {:induction false} CollectMembers<T>(p: nat, bs: seq<Block>, classify: (nat, Block) -> Option<T>, x: T)
    ensures x in Collect(p, bs, classify) <==> exists j | 0 <= j < |bs| :: classify(p, bs[j]) == Some(x)
    decreases |bs|
  {
    if bs != [] {
      var init := bs[..|bs| - 1];
      CollectMembers(p, init, classify, x);
      assert forall j | 0 <= j < |init| :: init[j] == bs[j];
    }
  }

  /** The scan yields x exactly when classify accepts some block of a scanned page with result x. */
  lemma {:induction false} GatherMembers<T>(doc: Document, lo: nat, hi: nat, arrange: seq<Block> -> seq<Block>,
                                            classify: (nat, Block) -> Option<T>, x: T)
    requires hi <= |doc|
    ensures x in Gather(doc, lo, hi, arrange, classify) <==>
      exists p, j | lo <= p < hi && 0 <= j < |arrange(doc[p].blocks)| :: classify(p, arrange(doc[p].blocks)[j]) == Some(x)
    decreases hi
  {
    if lo < hi {
      var prev := Gather(doc, lo, hi - 1, arrange, classify);
      var bs := arrange(doc[hi - 1].blocks);
      GatherMembers(doc, lo, hi - 1, arrange, classify, x);
      CollectMembers(hi - 1, bs, classify, x);
      assert Gather(doc, lo, hi, arrange, classify) == prev + Collect(hi - 1, bs, classify);
      if x in Gather(doc, lo, hi, arrange, classify) && x !in prev {
        var j :| 0 <= j < |bs| && classify(hi - 1, bs[j]) == Some(x);
      }
      if exists p, j | lo <= p < hi && 0 <= j < |arrange(doc[p].blocks)| :: classify(p, arrange(doc[p].blocks)[j]) == Some(x) {
        var p, j :| lo <= p < hi && 0 <= j < |arrange(doc[p].blocks)| && classify(p, arrange(doc[p].blocks)[j]) == Some(x);
        if p < hi - 1 {
          assert x in prev;
        } else {
          assert classify(hi - 1, bs[j]) == Some(x);
        }
      }
    }
  }

  /**
   * When arrange only reorders a page's blocks, the scan yields x exactly when
   * classify accepts some block of a scanned page, wherever it lies on the page.
   */
  lemma GatherMembersReordered<T>(doc: Document, lo: nat, hi: nat, arrange: seq<Block> -> seq<Block>,
                                  classify: (nat, Block) -> Option<T>, x: T)
    requires hi <= |doc|
    requires forall bs: seq<Block>, b: Block :: b in arrange(bs) <==> b in bs
    ensures x in Gather(doc, lo, hi, arrange, classify) <==>
      exists p, j | lo <= p < hi && 0 <= j < |doc[p].blocks| :: classify(p, doc[p].blocks[j]) == Some(x)
  {
    GatherMembers(doc, lo, hi, arrange, classify, x);
    if x in Gather(doc, lo, hi, arrange, classify) {
      var p, k :| lo <= p < hi && 0 <= k < |arrange(doc[p].blocks)| && classify(p, arrange(doc[p].blocks)[k]) == Some(x);
      var b := arrange(doc[p].blocks)[k];
      assert b in arrange(doc[p].blocks);
      assert b in doc[p].blocks;
      var j :| 0 <= j < |doc[p].blocks| && doc[p].blocks[j] == b;
    }
    if exists p, j | lo <= p < hi && 0 <= j < |doc[p].blocks| :: classify(p, doc[p].blocks[j]) == Some(x) {
      var p, j :| lo <= p < hi && 0 <= j < |doc[p].blocks| && classify(p, doc[p].blocks[j]) == Some(x);
      var b := doc[p].blocks[j];
      assert b in arrange(doc[p].blocks);
      var k :| 0 <= k < |arrange(doc[p].blocks)| && arrange(doc[p].blocks)[k] == b;
    }
  }
}

/** The node model of a paginated (PDF) document: stable node identifiers,
    quantised line geometry, and the extraction of nodes from the text
    content that the PDF text provider reports page by page. */
module Structure {
  import opened JsPrims

  datatype Option<T> = None | Some(value: T)

  /** Vertical tolerance, in document units, that groups text runs into one
      visual line. */
  const LineYTolerance: real := 3.0

  /** Node identifiers. `PdfId(p, i)` stands for the string `pdf-{p}-{i}` and
      `DocxId(i)` for `docx-node-{i}`; since a page number is a positive
      integer, distinct pairs give distinct strings, so the datatype is
      equality-faithful to the strings. */
  datatype NodeId = PdfId(page: int, item: int) | DocxId(index: int)

  /** One entry of a page's text content: the text run, the translation part
      of its transform (`tx` is transform[4], `ty` is transform[5]) and its
      glyph height. */
  datatype TextItem = TextItem(str: string, tx: real, ty: real, height: real)

  /** A structural node of a paginated document; `y` is already quantised. */
  datatype PdfNode = PdfNode(id: NodeId, x: real, y: real, fontSize: real, text: string, page: int)

  /** The visual line a node sits on: its page and quantised y. */
  datatype LineKey = LineKey(page: int, y: real)

  function LineOf(n: PdfNode): LineKey {
    LineKey(n.page, n.y)
  }

  /** `Math.round(y / LINE_Y_TOLERANCE) * LINE_Y_TOLERANCE`: a multiple of the
      tolerance that lies within half a tolerance of the raw y (the upper end
      included, since Math.round rounds halves upwards). */
  function Quantize(y: real): (q: real)
    ensures q == (q / LineYTolerance).Floor as real * LineYTolerance
    ensures y - 1.5 < q <= y + 1.5
  {
    var k := JsRound(y / LineYTolerance);
    assert (k as real * LineYTolerance / LineYTolerance).Floor == k;
    k as real * LineYTolerance
  }

  /** Raw ys 120.0 and 121.4 share a line; 125.0 lands on the next one. */
  lemma QuantizeExamples()
    ensures Quantize(120.0) == 120.0
    ensures Quantize(121.4) == 120.0
    ensures Quantize(125.0) == 126.0
  {
    assert JsRound(40.0) == 40;
    assert JsRound(121.4 / 3.0) == 40;
    assert JsRound(125.0 / 3.0) == 42;
  }

  /** An item carries no structural signal when its text is whitespace
      only, that is, when its trimmed text is empty (see `Trim`). */
  predicate IsBlank(item: TextItem) {
    AllWhitespace(item.str)
  }

  /** The node made from item `i` of page `p`. */
  function MakeNode(p: int, i: int, item: TextItem): PdfNode {
    PdfNode(PdfId(p, i), item.tx, Quantize(item.ty), item.height, item.str, p)
  }

  /** Position order of identifiers: page first, then item index. */
  predicate Before(a: NodeId, b: NodeId) {
    a.PdfId? && b.PdfId? && (a.page < b.page || (a.page == b.page && a.item < b.item))
  }

  predicate InPositionOrder(ns: seq<PdfNode>) {
    forall j, k :: 0 <= j < k < |ns| ==> Before(ns[j].id, ns[k].id)
  }

  /** The nodes of page `p` (1-based) whose items are `items`: at most one
      per item, each carrying page `p` and its item's own index, in item
      order. */
  function PageNodes(p: int, items: seq<TextItem>): (r: seq<PdfNode>)
    ensures |r| <= |items|
    ensures forall n :: n in r ==> n.page == p && n.id.PdfId? && n.id.page == p && 0 <= n.id.item < |items|
    ensures InPositionOrder(r)
  {
    if |items| == 0 then []
    else
      var last := |items| - 1;
      var prefix := PageNodes(p, items[..last]);
      if IsBlank(items[last]) then prefix else prefix + [MakeNode(p, last, items[last])]
  }

  /** The nodes of a whole document, pages numbered from 1, in page-then-item
      order. */
  function DocNodes(pages: seq<seq<TextItem>>): (r: seq<PdfNode>)
    ensures forall n :: n in r ==>
      1 <= n.page <= |pages| && n.id.PdfId? && n.id.page == n.page && 0 <= n.id.item < |pages[n.page - 1]|
    ensures InPositionOrder(r)
  {
    if |pages| == 0 then []
    else
      var init := pages[..|pages| - 1];
      var prefix := DocNodes(init);
      assert forall n :: n in prefix ==> init[n.page - 1] == pages[n.page - 1];
      prefix + PageNodes(|pages|, pages[|pages| - 1])
  }

  /** Every node of page `p` is the node of a non-blank item at its own
      index. */
  lemma {:induction false} PageNodesSound(p: int, items: seq<TextItem>)
    ensures forall n :: n in PageNodes(p, items) ==>
      n == MakeNode(p, n.id.item, items[n.id.item]) && !IsBlank(items[n.id.item])
  {
    if |items| > 0 {
      var last := |items| - 1;
      PageNodesSound(p, items[..last]);
      forall n | n in PageNodes(p, items[..last])
        ensures items[..last][n.id.item] == items[n.id.item]
      {
      }
    }
  }

  /** Every non-blank item of page `p` yields a node. */
  lemma {:induction false} PageNodesComplete(p: int, items: seq<TextItem>)
    ensures forall i :: 0 <= i < |items| && !IsBlank(items[i]) ==> MakeNode(p, i, items[i]) in PageNodes(p, items)
  {
    if |items| > 0 {
      var last := |items| - 1;
      PageNodesComplete(p, items[..last]);
      forall i | 0 <= i < last && !IsBlank(items[i])
        ensures MakeNode(p, i, items[i]) in PageNodes(p, items)
      {
        assert items[..last][i] == items[i];
      }
    }
  }

  /** Extraction keeps exactly the non-blank items: every extracted node is
      the node of a non-blank item at its page and item index, and the item
      at 0-based page `q`, index `i` yields a node iff it is not blank. */
  lemma {:induction false} DocNodesExactly(pages: seq<seq<TextItem>>)
    ensures forall n :: n in DocNodes(pages) ==>
      n == MakeNode(n.page, n.id.item, pages[n.page - 1][n.id.item]) && !IsBlank(pages[n.page - 1][n.id.item])
    ensures forall q, i :: 0 <= q < |pages| && 0 <= i < |pages[q]| ==>
      (MakeNode(q + 1, i, pages[q][i]) in DocNodes(pages) <==> !IsBlank(pages[q][i]))
  {
    if |pages| > 0 {
      var n := |pages|;
      var init := pages[..n - 1];
      DocNodesExactly(init);
      PageNodesSound(n, pages[n - 1]);
      PageNodesComplete(n, pages[n - 1]);
      forall m | m in DocNodes(init)
        ensures init[m.page - 1] == pages[m.page - 1]
      {
      }
      forall q, i | 0 <= q < n && 0 <= i < |pages[q]|
        ensures MakeNode(q + 1, i, pages[q][i]) in DocNodes(pages) <==> !IsBlank(pages[q][i])
      {
        if q < n - 1 {
          assert init[q] == pages[q];
          var m := MakeNode(q + 1, i, pages[q][i]);
          assert m !in PageNodes(n, pages[n - 1]);
        }
      }
    }
  }

  /** Identifiers are unique even though blank items are skipped. */
  lemma ExtractedIdsUnique(pages: seq<seq<TextItem>>)
    ensures forall j, k :: 0 <= j < k < |DocNodes(pages)| ==> DocNodes(pages)[j].id != DocNodes(pages)[k].id
  {
  }

  /** The `buildStructuralMap` page loop: walks pages in order, appending the
      nodes of each page. */
  method ExtractNodes(pages: seq<seq<TextItem>>) returns (nodes: seq<PdfNode>)
    ensures nodes == DocNodes(pages)
  {
    nodes := [];
    var p := 1;
    while p <= |pages|
      invariant 1 <= p <= |pages| + 1
      invariant nodes == DocNodes(pages[..p - 1])
    {
      var pageNodes := ExtractPage(p, pages[p - 1]);
      assert pages[..p][..p - 1] == pages[..p - 1];
      nodes := nodes + pageNodes;
      p := p + 1;
    }
    assert pages[..p - 1] == pages;
  }

  /** The `textContent.items.forEach` step for page `p`: items in order, a
      node pushed for every item whose trimmed text is not empty. */
  method ExtractPage(p: int, items: seq<TextItem>) returns (nodes: seq<PdfNode>)
    ensures nodes == PageNodes(p, items)
  {
    nodes := [];
    var idx := 0;
    while idx < |items|
      invariant 0 <= idx <= |items|
      invariant nodes == PageNodes(p, items[..idx])
    {
      assert items[..idx + 1][..idx] == items[..idx];
      assert |Trim(items[idx].str)| != 0 <==> !IsBlank(items[idx]);
      if |Trim(items[idx].str)| != 0 {
        nodes := nodes + [MakeNode(p, idx, items[idx])];
      }
      idx := idx + 1;
    }
    assert items[..idx] == items;
  }
}

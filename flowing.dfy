/** Flowing (Word-like) documents: selectable blocks numbered by traversal
    order, and the alignment match of `performPatternMatch`, which selects
    every block whose x lies within a tolerance of the seed's. */
module Flowing {
  import opened JsPrims
  import opened Structure

  /** Horizontal tolerance of the alignment match. */
  const XMatchTolerance: int := 15

  /** A block element (paragraph, table cell or heading) as the rendered
      document reports it: its inner text and the left edge of its bounding
      box. */
  datatype RawBlock = RawBlock(innerText: string, left: real)

  /** A selectable block: its id and its integer offset from the
      container's left edge. */
  datatype DocxBlock = DocxBlock(id: NodeId, x: int)

  /** `el.innerText && el.innerText.trim().length > 0`: the block has a
      character that is not whitespace (see `Trim`). */
  predicate IsSelectable(b: RawBlock) {
    !AllWhitespace(b.innerText)
  }

  /** The selectable block made from block `i` of the traversal. */
  function MakeBlock(i: int, b: RawBlock, containerLeft: real): DocxBlock {
    DocxBlock(DocxId(i), JsRound(b.left - containerLeft))
  }

  predicate InTraversalOrder(bs: seq<DocxBlock>) {
    forall j, k :: 0 <= j < k < |bs| ==> bs[j].id.DocxId? && bs[k].id.DocxId? && bs[j].id.index < bs[k].id.index
  }

  /** The selectable blocks of a traversal: at most one per block, each
      numbered by its traversal index, in traversal order. */
  function SelectableBlocks(raw: seq<RawBlock>, containerLeft: real): (r: seq<DocxBlock>)
    ensures |r| <= |raw|
    ensures forall b :: b in r ==> b.id.DocxId? && 0 <= b.id.index < |raw|
    ensures InTraversalOrder(r)
  {
    if |raw| == 0 then []
    else
      var last := |raw| - 1;
      var prefix := SelectableBlocks(raw[..last], containerLeft);
      if IsSelectable(raw[last]) then prefix + [MakeBlock(last, raw[last], containerLeft)] else prefix
  }

  /** Every selectable block is made from a block with non-empty trimmed
      text at its own traversal index. */
  lemma {:induction false} SelectableBlocksSound(raw: seq<RawBlock>, containerLeft: real)
    ensures forall b :: b in SelectableBlocks(raw, containerLeft) ==>
      IsSelectable(raw[b.id.index]) && b == MakeBlock(b.id.index, raw[b.id.index], containerLeft)
  {
    if |raw| > 0 {
      var last := |raw| - 1;
      SelectableBlocksSound(raw[..last], containerLeft);
      forall b | b in SelectableBlocks(raw[..last], containerLeft)
        ensures raw[..last][b.id.index] == raw[b.id.index]
      {
      }
    }
  }

  /** Every block with non-empty trimmed text becomes selectable. */
  lemma {:induction false} SelectableBlocksComplete(raw: seq<RawBlock>, containerLeft: real)
    ensures forall i :: 0 <= i < |raw| && IsSelectable(raw[i]) ==>
      MakeBlock(i, raw[i], containerLeft) in SelectableBlocks(raw, containerLeft)
  {
    if |raw| > 0 {
      var last := |raw| - 1;
      SelectableBlocksComplete(raw[..last], containerLeft);
      forall i | 0 <= i < last && IsSelectable(raw[i])
        ensures MakeBlock(i, raw[i], containerLeft) in SelectableBlocks(raw, containerLeft)
      {
        assert raw[..last][i] == raw[i];
      }
    }
  }

  /** The `blocks.forEach` loop of the flowing-document viewer: marks every
      block with non-empty trimmed text as selectable, with id
      `docx-node-{index}` and its offset rounded by Math.round. */
  method AssignDocxIds(raw: seq<RawBlock>, containerLeft: real) returns (blocks: seq<DocxBlock>)
    ensures blocks == SelectableBlocks(raw, containerLeft)
  {
    blocks := [];
    var idx := 0;
    while idx < |raw|
      invariant 0 <= idx <= |raw|
      invariant blocks == SelectableBlocks(raw[..idx], containerLeft)
    {
      assert raw[..idx + 1][..idx] == raw[..idx];
      assert |Trim(raw[idx].innerText)| != 0 <==> IsSelectable(raw[idx]);
      if |Trim(raw[idx].innerText)| != 0 {
        blocks := blocks + [MakeBlock(idx, raw[idx], containerLeft)];
      }
      idx := idx + 1;
    }
    assert raw[..idx] == raw;
  }

  /** `querySelector` for the seed id: the x of the first selectable block
      carrying it, if any. */
  function SeedX(blocks: seq<DocxBlock>, id: NodeId): (r: Option<int>)
    ensures r.None? <==> forall j :: 0 <= j < |blocks| ==> blocks[j].id != id
    ensures r.Some? ==> exists j ::
      (0 <= j < |blocks| && blocks[j].id == id && blocks[j].x == r.value
       && forall j' :: 0 <= j' < j ==> blocks[j'].id != id)
  {
    if |blocks| == 0 then None
    else if blocks[0].id == id then Some(blocks[0].x)
    else SeedX(blocks[1..], id)
  }

  /** `Math.abs(x - targetX) < X_MATCH_TOLERANCE`. */
  predicate Aligned(x: int, seedX: int) {
    -XMatchTolerance < x - seedX < XMatchTolerance
  }

  /** Ids of every selectable block aligned with `seedX`. */
  function AlignedMembers(blocks: seq<DocxBlock>, seedX: int): set<NodeId> {
    set i | 0 <= i < |blocks| && Aligned(blocks[i].x, seedX) :: blocks[i].id
  }

  /** The alignment loop: adds to `ids` the id of every selectable block
      aligned with the seed's x. */
  method AlignBlocks(ids: set<NodeId>, blocks: seq<DocxBlock>, seedX: int) returns (newIds: set<NodeId>)
    ensures newIds == ids + AlignedMembers(blocks, seedX)
  {
    newIds := ids;
    var idx := 0;
    while idx < |blocks|
      invariant 0 <= idx <= |blocks|
      invariant forall id :: id in newIds <==>
        id in ids || exists i :: 0 <= i < idx && Aligned(blocks[i].x, seedX) && blocks[i].id == id
    {
      var x := blocks[idx].x;
      if (if x - seedX < 0 then seedX - x else x - seedX) < XMatchTolerance {
        newIds := newIds + {blocks[idx].id};
      }
      idx := idx + 1;
    }
    assert forall id :: id in newIds <==> id in ids + AlignedMembers(blocks, seedX);
  }
}

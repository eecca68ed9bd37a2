/** The selection record `{type, nodeIds, indices}` and the pure rules over
    it: pattern propagation for paginated and flowing documents, the
    spreadsheet column toggle, the highlight predicate and the
    selected-count badge. */
module Selections {
  import opened Structure
  import opened Features
  import opened Matching
  import opened Flowing

  datatype DocKind = Pdf | Xlsx | Docx

  /** `type` is None until the first propagation or toggle; `indices` maps a
      sheet index to its list of selected column indices. */
  datatype Selection = Selection(kind: Option<DocKind>, nodeIds: set<NodeId>, indices: map<int, seq<int>>)

  /** The state after a file switch or "Clear Patterns". */
  const Empty: Selection := Selection(None, {}, map[])

  // ---------------------------------------------------------------------
  // Paginated propagation

  /** `performPatternMatch` on a paginated document: an unknown seed leaves
      the selection as it is; otherwise every node on the line of a raw
      match is added and the type becomes PDF. */
  function PdfMatch(sel: Selection, nodes: seq<PdfNode>, features: seq<seq<real>>, seed: NodeId): (r: Selection)
    requires IsFeatureMatrix(features, |nodes|)
    ensures SeedIndex(nodes, seed).None? ==> r == sel
    ensures SeedIndex(nodes, seed).Some? ==> r.kind == Some(Pdf)
    ensures sel.nodeIds <= r.nodeIds && r.indices == sel.indices
  {
    match SeedIndex(nodes, seed)
    case None => sel
    case Some(k) => sel.(kind := Some(Pdf), nodeIds := sel.nodeIds + LineMembers(nodes, ActiveLines(nodes, features, k)))
  }

  /** Two nodes share a line, and the first is a raw match for seed `k`. */
  predicate PullsIn(nodes: seq<PdfNode>, features: seq<seq<real>>, k: nat, i: nat, j: nat)
    requires k < |nodes| && i < |nodes| && j < |nodes| && IsFeatureMatrix(features, |nodes|)
  {
    RawMatch(features, k, i) && LineOf(nodes[j]) == LineOf(nodes[i])
  }

  /** The paginated result, both ways: an id is selected afterwards iff it
      was selected before or it belongs to a node sharing its line with a
      raw match. */
  lemma PdfMatchExactly(sel: Selection, nodes: seq<PdfNode>, features: seq<seq<real>>, seed: NodeId, k: nat)
    requires IsFeatureMatrix(features, |nodes|) && SeedIndex(nodes, seed) == Some(k)
    ensures forall id :: id in PdfMatch(sel, nodes, features, seed).nodeIds <==>
      id in sel.nodeIds
      || exists i, j :: 0 <= i < |nodes| && 0 <= j < |nodes| && nodes[j].id == id && PullsIn(nodes, features, k, i, j)
  {
    var lines := ActiveLines(nodes, features, k);
    forall id | id in LineMembers(nodes, lines)
      ensures exists i, j :: 0 <= i < |nodes| && 0 <= j < |nodes| && nodes[j].id == id && PullsIn(nodes, features, k, i, j)
    {
      var j :| 0 <= j < |nodes| && LineOf(nodes[j]) in lines && nodes[j].id == id;
      var i :| 0 <= i < |nodes| && RawMatch(features, k, i) && LineOf(nodes[i]) == LineOf(nodes[j]);
      assert PullsIn(nodes, features, k, i, j);
    }
    forall id, i, j | 0 <= i < |nodes| && 0 <= j < |nodes| && nodes[j].id == id && PullsIn(nodes, features, k, i, j)
      ensures id in LineMembers(nodes, lines)
    {
      assert LineOf(nodes[i]) in lines;
    }
  }

  /** Line completeness: a node on the line of a raw match is selected even
      when its own score is below the threshold. */
  lemma LineMateSelected(sel: Selection, nodes: seq<PdfNode>, features: seq<seq<real>>, seed: NodeId, i: nat, j: nat)
    requires IsFeatureMatrix(features, |nodes|) && SeedIndex(nodes, seed).Some?
    requires i < |nodes| && j < |nodes|
    requires RawMatch(features, SeedIndex(nodes, seed).value, i) && LineOf(nodes[j]) == LineOf(nodes[i])
    ensures nodes[j].id in PdfMatch(sel, nodes, features, seed).nodeIds
  {
    PdfMatchExactly(sel, nodes, features, seed, SeedIndex(nodes, seed).value);
  }

  /** Nothing off an active line is added: a newly selected id belongs to a
      node whose line holds a raw match. */
  lemma NoOffLineAddition(sel: Selection, nodes: seq<PdfNode>, features: seq<seq<real>>, seed: NodeId, id: NodeId)
    requires IsFeatureMatrix(features, |nodes|)
    requires id in PdfMatch(sel, nodes, features, seed).nodeIds && id !in sel.nodeIds
    ensures SeedIndex(nodes, seed).Some?
    ensures exists j ::
      (0 <= j < |nodes| && nodes[j].id == id && LineOf(nodes[j]) in ActiveLines(nodes, features, SeedIndex(nodes, seed).value))
  {
    var k := SeedIndex(nodes, seed).value;
    PdfMatchExactly(sel, nodes, features, seed, k);
    var i, j :| 0 <= i < |nodes| && 0 <= j < |nodes| && nodes[j].id == id && PullsIn(nodes, features, k, i, j);
    assert LineOf(nodes[i]) in ActiveLines(nodes, features, k);
  }

  /** Propagating from the same seed twice gives what propagating once
      does. */
  lemma PdfMatchIdempotent(sel: Selection, nodes: seq<PdfNode>, features: seq<seq<real>>, seed: NodeId)
    requires IsFeatureMatrix(features, |nodes|)
    ensures PdfMatch(PdfMatch(sel, nodes, features, seed), nodes, features, seed) == PdfMatch(sel, nodes, features, seed)
  {
  }

  // ---------------------------------------------------------------------
  // Flowing propagation

  /** `performPatternMatch` on a flowing document: an unknown seed leaves the
      selection as it is; otherwise every selectable block aligned with the
      seed's x is added and the type becomes DOCX. */
  function DocxMatch(sel: Selection, blocks: seq<DocxBlock>, seed: NodeId): (r: Selection)
    ensures SeedX(blocks, seed).None? ==> r == sel
    ensures SeedX(blocks, seed).Some? ==> r.kind == Some(Docx) && seed in r.nodeIds
    ensures sel.nodeIds <= r.nodeIds && r.indices == sel.indices
  {
    match SeedX(blocks, seed)
    case None => sel
    case Some(sx) => sel.(kind := Some(Docx), nodeIds := sel.nodeIds + AlignedMembers(blocks, sx))
  }

  /** The flowing result, both ways: an id is selected afterwards iff it was
      selected before or some selectable block carrying it lies strictly
      within the tolerance of the seed's x. */
  lemma DocxMatchExactly(sel: Selection, blocks: seq<DocxBlock>, seed: NodeId, sx: int)
    requires SeedX(blocks, seed) == Some(sx)
    ensures forall id :: id in DocxMatch(sel, blocks, seed).nodeIds <==>
      id in sel.nodeIds || exists i :: 0 <= i < |blocks| && blocks[i].id == id && Aligned(blocks[i].x, sx)
  {
  }

  /** The tolerance is strict: with unique block ids, a block 14 units from
      the seed is selected and a block 15 units away is not (unless it was
      already). */
  lemma AlignmentBoundary(sel: Selection, blocks: seq<DocxBlock>, seed: NodeId, sx: int, i: nat)
    requires SeedX(blocks, seed) == Some(sx) && i < |blocks|
    requires forall j, k :: 0 <= j < k < |blocks| ==> blocks[j].id != blocks[k].id
    ensures blocks[i].x == sx + 14 || blocks[i].x == sx - 14 ==> blocks[i].id in DocxMatch(sel, blocks, seed).nodeIds
    ensures (blocks[i].x == sx + 15 || blocks[i].x == sx - 15) && blocks[i].id !in sel.nodeIds ==>
      blocks[i].id !in DocxMatch(sel, blocks, seed).nodeIds
  {
    DocxMatchExactly(sel, blocks, seed, sx);
    if (blocks[i].x == sx + 15 || blocks[i].x == sx - 15) && blocks[i].id !in sel.nodeIds {
      forall j | 0 <= j < |blocks| && blocks[j].id == blocks[i].id
        ensures !Aligned(blocks[j].x, sx)
      {
        assert j == i;
      }
    }
  }

  // ---------------------------------------------------------------------
  // Spreadsheet column toggle

  predicate NoDuplicates(s: seq<int>) {
    forall j, k :: 0 <= j < k < |s| ==> s[j] != s[k]
  }

  /** `cur.filter((x) => x !== col)`. */
  function Without(cur: seq<int>, col: int): (r: seq<int>)
    ensures forall x :: x in r <==> x in cur && x != col
    ensures col !in cur ==> r == cur
    ensures NoDuplicates(cur) ==> NoDuplicates(r)
    ensures NoDuplicates(cur) && col in cur ==> |r| == |cur| - 1
  {
    if |cur| == 0 then []
    else
      var rest := Without(cur[1..], col);
      assert NoDuplicates(cur) ==> cur[0] !in cur[1..] && NoDuplicates(cur[1..]);
      if cur[0] == col then rest else [cur[0]] + rest
  }

  /** `cur.includes(col) ? cur.filter(...) : [...cur, col]`: `col` changes
      membership and nothing else does; on a list without duplicates the
      list shrinks or grows by exactly one and stays without duplicates. */
  function Toggled(cur: seq<int>, col: int): (r: seq<int>)
    ensures forall x :: x in r <==> if x == col then col !in cur else x in cur
    ensures NoDuplicates(cur) ==> NoDuplicates(r)
    ensures NoDuplicates(cur) ==> |r| == if col in cur then |cur| - 1 else |cur| + 1
  {
    assert NoDuplicates(cur) && col !in cur ==> NoDuplicates(cur + [col]);
    if col in cur then Without(cur, col) else cur + [col]
  }

  /** `prev.indices?.[sheet] || []`: a sheet never toggled has no columns,
      and on a spreadsheet selection no sheet holds more columns than the
      selected count. */
  function ColumnsOf(sel: Selection, sheet: int): (r: seq<int>)
    ensures sheet !in sel.indices ==> r == []
    ensures sel.kind == Some(Xlsx) ==> |r| <= TotalSelectedCount(sel)
  {
    if sheet in sel.indices then sel.indices[sheet] else []
  }

  /** The column-header click handler: toggles `col` in the active sheet's
      list and makes the type XLSX; node ids and every other sheet's list are
      kept. */
  function ToggleColumn(sel: Selection, sheet: int, col: int): (r: Selection)
    ensures r.kind == Some(Xlsx) && r.nodeIds == sel.nodeIds
    ensures r.indices.Keys == sel.indices.Keys + {sheet}
    ensures forall s :: s in sel.indices && s != sheet ==> r.indices[s] == sel.indices[s]
    ensures forall x :: x in ColumnsOf(r, sheet) <==>
      if x == col then col !in ColumnsOf(sel, sheet) else x in ColumnsOf(sel, sheet)
    ensures NoDuplicates(ColumnsOf(sel, sheet)) ==> NoDuplicates(ColumnsOf(r, sheet))
  {
    var cur := ColumnsOf(sel, sheet);
    var next := Toggled(cur, col);
    sel.(kind := Some(Xlsx), indices := sel.indices[sheet := next])
  }

  /** Toggling the same column twice restores the same set of columns; the
      list itself comes back unchanged when the column was not selected,
      and otherwise the column moves to the end. */
  lemma ToggleTwice(sel: Selection, sheet: int, col: int)
    ensures var twice := ToggleColumn(ToggleColumn(sel, sheet, col), sheet, col);
      && (forall x :: x in ColumnsOf(twice, sheet) <==> x in ColumnsOf(sel, sheet))
      && (col !in ColumnsOf(sel, sheet) ==> ColumnsOf(twice, sheet) == ColumnsOf(sel, sheet))
      && (col in ColumnsOf(sel, sheet) ==> ColumnsOf(twice, sheet) == Without(ColumnsOf(sel, sheet), col) + [col])
  {
    var cur := ColumnsOf(sel, sheet);
    if col !in cur {
      assert Without(cur + [col], col) == cur by {
        WithoutAppended(cur, col);
      }
    }
  }

  /** Removing a column that was just appended to a list without it gives
      the list back. */
  lemma {:induction false} WithoutAppended(cur: seq<int>, col: int)
    requires col !in cur
    ensures Without(cur + [col], col) == cur
  {
    if |cur| > 0 {
      WithoutAppended(cur[1..], col);
      assert (cur + [col])[1..] == cur[1..] + [col];
    }
  }

  /** `isSelected` for a column header: only a spreadsheet selection marks
      columns, and a marked column is counted in the badge. */
  predicate IsColumnSelected(sel: Selection, sheet: int, col: int): (b: bool)
    ensures b ==> sel.kind == Some(Xlsx) && TotalSelectedCount(sel) >= 1
  {
    sel.kind == Some(Xlsx) && col in ColumnsOf(sel, sheet)
  }

  // ---------------------------------------------------------------------
  // Highlighting and the selected count

  /** `isSelected && !isExcluded`: the highlight rule of both viewers. A
      highlighted node of a paginated or flowing selection is counted in the
      badge. */
  predicate IsHighlighted(sel: Selection, excluded: seq<NodeId>, id: NodeId): (b: bool)
    ensures b && sel.kind.Some? && sel.kind != Some(Xlsx) ==> TotalSelectedCount(sel) >= 1
  {
    id in sel.nodeIds && id !in excluded
  }

  /** Excluding an id hides exactly that id, whatever the selection holds,
      and only through the excluded list. */
  lemma ExcludeHidesOnlyThatId(sel: Selection, excluded: seq<NodeId>, id: NodeId, other: NodeId)
    ensures !IsHighlighted(sel, excluded + [id], id)
    ensures other != id ==> (IsHighlighted(sel, excluded + [id], other) <==> IsHighlighted(sel, excluded, other))
  {
  }

  /** Sum of the lengths of all column lists. */
  ghost function SumLengths(m: map<int, seq<int>>): (r: nat)
    ensures forall k :: k in m ==> |m[k]| <= r
    ensures r == 0 <==> forall k :: k in m ==> m[k] == []
    decreases |m.Keys|
  {
    if m == map[] then 0
    else
      SomeSheet(m);
      var k :| k in m;
      var rest := m - {k};
      assert rest.Keys == m.Keys - {k};
      assert forall k' :: k' in m && k' != k ==> k' in rest && rest[k'] == m[k'];
      |m[k]| + SumLengths(rest)
  }

  /** A non-empty map has a key. */
  lemma SomeSheet(m: map<int, seq<int>>)
    requires m != map[]
    ensures exists k :: k in m
  {
    if forall k :: k !in m {
      assert false;
    }
  }

  /** Whichever sheet `SumLengths` takes first, the sum splits off any
      sheet. */
  lemma {:induction false} SumLengthsSplit(m: map<int, seq<int>>, k: int)
    requires k in m
    ensures SumLengths(m) == |m[k]| + SumLengths(m - {k})
    decreases |m.Keys|
  {
    var c :| c in m.Keys && SumLengths(m) == |m[c]| + SumLengths(m - {c});
    if c != k {
      var mc, mk := m - {c}, m - {k};
      assert mc.Keys == m.Keys - {c} && mk.Keys == m.Keys - {k};
      SumLengthsSplit(mc, k);
      SumLengthsSplit(mk, c);
      assert mc - {k} == mk - {c};
    }
  }

  /** `totalSelectedCount`: 0 with no type, the total number of selected
      columns over all sheets for XLSX, and the number of selected node ids
      otherwise (excluded ids included). */
  ghost function TotalSelectedCount(sel: Selection): (c: nat)
    ensures sel.kind.None? ==> c == 0
    ensures sel.kind == Some(Xlsx) ==> forall k :: k in sel.indices ==> |sel.indices[k]| <= c
    ensures sel.kind == Some(Xlsx) ==> (c == 0 <==> forall k :: k in sel.indices ==> sel.indices[k] == [])
    ensures sel.kind.Some? && sel.kind != Some(Xlsx) ==> c == |sel.nodeIds|
  {
    if sel.kind.None? then 0
    else if sel.kind == Some(Xlsx) then SumLengths(sel.indices)
    else |sel.nodeIds|
  }

  /** The first toggle after a reset selects one column. */
  lemma FirstToggleCount(sheet: int, col: int)
    ensures TotalSelectedCount(ToggleColumn(Empty, sheet, col)) == 1
  {
    var m := ToggleColumn(Empty, sheet, col).indices;
    assert ColumnsOf(Empty, sheet) == [];
    assert Toggled([], col) == [] + [col] == [col];
    assert m == map[sheet := [col]];
    SumLengthsSplit(m, sheet);
    assert m - {sheet} == map[];
  }

  /** On a spreadsheet selection whose lists have no duplicates, or on the
      empty selection left by a file switch or "Clear Patterns", a toggle
      moves the count by exactly one. */
  lemma ToggleCount(sel: Selection, sheet: int, col: int)
    requires (sel.kind == Some(Xlsx) || sel == Empty) && NoDuplicates(ColumnsOf(sel, sheet))
    ensures TotalSelectedCount(ToggleColumn(sel, sheet, col)) ==
      if col in ColumnsOf(sel, sheet) then TotalSelectedCount(sel) - 1 else TotalSelectedCount(sel) + 1
  {
    if sel == Empty {
      FirstToggleCount(sheet, col);
      return;
    }
    var m := sel.indices;
    var next := Toggled(ColumnsOf(sel, sheet), col);
    var m' := m[sheet := next];
    assert m == ToggleColumn(sel, sheet, col).indices - {sheet} + m by {
      assert ToggleColumn(sel, sheet, col).indices == m';
    }
    SumLengthsSplit(m', sheet);
    assert m' - {sheet} == m - {sheet};
    if sheet in m {
      SumLengthsSplit(m, sheet);
    } else {
      assert m - {sheet} == m;
    }
  }
}

/** The state the main component keeps for the active file, and the event
    handlers that change it: switching files, building the structural map of
    a paginated document, marking a flowing document's blocks, propagating a
    pattern from a clicked seed, toggling a spreadsheet column, excluding a
    node and clearing the selection. */
module Session {
  import opened Structure
  import opened Features
  import opened Matching
  import opened Flowing
  import opened Selections

  class Workspace {
    /** The active file's kind (`fileType`). */
    var fileType: Option<DocKind>
    var selection: Selection
    /** The manually excluded ids (`excludedNodes`), append-only until reset. */
    var excluded: seq<NodeId>
    /** The node table of the last paginated document that yielded nodes
        (`nodeLookupRef`). */
    var nodes: seq<PdfNode>
    /** The feature matrix built with it (`structuralTensorsRef`). */
    var features: seq<seq<real>>
    /** The selectable blocks of the rendered flowing document. */
    var docxBlocks: seq<DocxBlock>
    var activeSheet: int

    /** The feature matrix is always the encoding of the node table (the two
        are only ever replaced together), and no sheet lists a column
        twice. */
    ghost predicate Valid()
      reads this
    {
      && features == EncodeAll(nodes)
      && forall s :: s in selection.indices ==> NoDuplicates(selection.indices[s])
    }

    constructor ()
      ensures Valid()
      ensures fileType == None && selection == Empty && excluded == []
      ensures nodes == [] && features == [] && docxBlocks == [] && activeSheet == 0
    {
      fileType := None;
      selection := Empty;
      excluded := [];
      nodes := [];
      features := [];
      docxBlocks := [];
      activeSheet := 0;
    }

    /** `switchToFile`: the selection and the excluded list are reset and the
        previous document's view is dropped. The node table and the active
        sheet index are not reset. */
    method SwitchToFile(kind: DocKind)
      requires Valid()
      modifies this`fileType, this`selection, this`excluded, this`docxBlocks
      ensures Valid()
      ensures fileType == Some(kind) && selection == Empty && excluded == [] && docxBlocks == []
      ensures TotalSelectedCount(selection) == 0
    {
      fileType := Some(kind);
      selection := Empty;
      excluded := [];
      docxBlocks := [];
    }

    /** `buildStructuralMap`: with the tensor library ready, extracts the
        document's nodes; when there is at least one, the node table and the
        feature matrix are replaced, otherwise both are left untouched. */
    method BuildStructuralMap(pages: seq<seq<TextItem>>, tfReady: bool)
      requires Valid()
      modifies this`nodes, this`features
      ensures Valid()
      ensures nodes == if tfReady && |DocNodes(pages)| > 0 then DocNodes(pages) else old(nodes)
    {
      if !tfReady {
        return;
      }
      var extracted := ExtractNodes(pages);
      if |extracted| > 0 {
        nodes := extracted;
        features := EncodeAll(extracted);
      }
    }

    /** The flowing-document viewer's render callback: the blocks with
        non-empty text become selectable. */
    method RenderDocx(raw: seq<RawBlock>, containerLeft: real)
      modifies this`docxBlocks
      ensures docxBlocks == SelectableBlocks(raw, containerLeft)
    {
      docxBlocks := AssignDocxIds(raw, containerLeft);
    }

    /** `performPatternMatch`: paginated documents propagate to whole lines,
        flowing documents to aligned blocks, anything else is ignored. */
    method PerformPatternMatch(seed: NodeId)
      requires Valid()
      modifies this`selection
      ensures Valid()
      ensures selection ==
        if fileType == Some(Pdf) then PdfMatch(old(selection), nodes, features, seed)
        else if fileType == Some(Docx) then DocxMatch(old(selection), docxBlocks, seed)
        else old(selection)
    {
      if fileType == Some(Pdf) {
        MatchPdf(seed);
      } else if fileType == Some(Docx) {
        MatchDocx(seed);
      }
    }

    /** The paginated branch: find the seed, collect the lines of the raw
        matches, select every node on them. */
    method MatchPdf(seed: NodeId)
      requires Valid()
      modifies this`selection
      ensures selection == PdfMatch(old(selection), nodes, features, seed)
    {
      var seedIdx := FindSeed(nodes, seed);
      if seedIdx == -1 {
        return;
      }
      var lines := CollectActiveLines(nodes, features, seedIdx);
      var newIds := ExpandLines(selection.nodeIds, nodes, lines);
      selection := selection.(kind := Some(Pdf), nodeIds := newIds);
    }

    /** The flowing branch: find the seed's x, select every aligned block. */
    method MatchDocx(seed: NodeId)
      requires Valid()
      modifies this`selection
      ensures selection == DocxMatch(old(selection), docxBlocks, seed)
    {
      var target := SeedX(docxBlocks, seed);
      if target.None? {
        return;
      }
      var newIds := AlignBlocks(selection.nodeIds, docxBlocks, target.value);
      selection := selection.(kind := Some(Docx), nodeIds := newIds);
    }

    /** The column-header click on the active sheet. */
    method ToggleColumnOnActiveSheet(col: int)
      requires Valid()
      modifies this`selection
      ensures Valid()
      ensures selection == ToggleColumn(old(selection), activeSheet, col)
      ensures IsColumnSelected(selection, activeSheet, col) <==> col !in ColumnsOf(old(selection), activeSheet)
      ensures old(selection).kind == Some(Xlsx) || old(selection) == Empty ==>
        TotalSelectedCount(selection) ==
          if col in ColumnsOf(old(selection), activeSheet) then TotalSelectedCount(old(selection)) - 1
          else TotalSelectedCount(old(selection)) + 1
    {
      ghost var before := selection;
      assert NoDuplicates(ColumnsOf(before, activeSheet));
      selection := ToggleColumn(selection, activeSheet, col);
      if before.kind == Some(Xlsx) || before == Empty {
        ToggleCount(before, activeSheet, col);
      }
    }

    /** The sheet-tab click. */
    method SelectSheet(index: int)
      modifies this`activeSheet
      ensures activeSheet == index
    {
      activeSheet := index;
    }

    /** The remove button on a highlighted node: appends to the excluded
        list only. The id stops being highlighted, every other id keeps its
        highlight state, and the selection (hence the count) is unchanged. */
    method Exclude(id: NodeId)
      modifies this`excluded
      ensures excluded == old(excluded) + [id]
      ensures !IsHighlighted(selection, excluded, id)
      ensures forall other :: other != id ==>
        (IsHighlighted(selection, excluded, other) <==> IsHighlighted(selection, old(excluded), other))
    {
      excluded := excluded + [id];
    }

    /** "Clear Patterns". */
    method ClearPatterns()
      requires Valid()
      modifies this`selection, this`excluded
      ensures Valid()
      ensures selection == Empty && excluded == []
      ensures forall id :: !IsHighlighted(selection, excluded, id)
    {
      selection := Empty;
      excluded := [];
    }
  }
}

# Structural pattern selection engine

This project models the selection engine of a browser document viewer. The
viewer opens PDF, DOCX and XLSX files. Clicking one element selects every
element that is structurally like it, and the selection is highlighted:

- **Paginated documents (PDF).** Every non-blank text run becomes a
  *node*. Its id is `pdf-{page}-{index}`, and its y is quantised to a
  3-unit grid, which defines its *line*. The node is encoded as a 4-entry
  feature vector: x/1000, font size/100, a leading-digit flag, and the
  capped length/500. Clicking a seed scores every node by the raw dot
  product of its vector with the seed's. Every node sharing a line with a
  node that scores above 0.985 is selected.
- **Flowing documents (DOCX).** Every block with non-blank text becomes
  selectable as `docx-node-{index}`. Its x is its rounded offset from the
  container's left edge. Clicking a seed selects every block whose x is
  strictly within 15 units of the seed's.
- **Spreadsheets (XLSX).** Clicking a column header of the active sheet
  toggles that column in the sheet's list.

The selection record holds a type, a set of node ids and per-sheet column
lists. A separate list of excluded ids hides a node's highlight without
unselecting it. Both are reset when a file is opened and by "Clear
Patterns".

Modules:

- `JsPrims`: the JavaScript primitives the engine relies on. These are
  `String.prototype.trim` with the ECMAScript whitespace set, `/^\d/`,
  UTF-16 `length` and `Math.round`.
- `Structure`: node ids, line quantisation and the extraction of nodes
  from page text.
- `Features`: the feature vector and the dot-product score.
- `Matching`: the seed lookup, the collection of active lines and the
  line expansion.
- `Flowing`: selectable blocks and the alignment loop.
- `Selections`: the selection record. It holds the PDF and DOCX matches
  and the column toggle as functions on values, and the highlight rule and
  the selected count.
- `Session`: the class `Workspace`. It holds the component's mutable state
  and one method per event handler.

Numbers are exact reals, so the model reasons about the scores
arithmetically. In `Workspace`, the node table and the feature matrix are
kept in step by the class invariant `Valid`. That invariant also says that
no sheet lists a column twice.

## Model

| member | source | states |
|---|---|---|
| JsPrims.Trim | src/App.tsx:360 | The trimmed text is no longer than the input, neither starts nor ends with whitespace, and is empty iff the whole text is whitespace. |
| JsPrims.TrimIsSlice | src/App.tsx:360 | The trimmed text is the slice of the input that starts where the leading whitespace ends, and everything cut before and after it is whitespace. With `Trim`'s contract, only the leading and trailing whitespace is removed. |
| JsPrims.TrimmedStartsWithDigit | src/App.tsx:379 | `/^\d/` on the trimmed text holds iff the first non-whitespace character of the untrimmed text is an ASCII digit. |
| JsPrims.Utf16Length | src/App.tsx:380 | The length counts UTF-16 code units. It lies between the number of characters and twice that, and equals the number of characters iff none lies outside the basic plane. |
| JsPrims.JsRound | src/App.tsx:217 | `Math.round` gives the integer k with k - 0.5 <= v < k + 0.5, so halves round upwards. |
| Structure.Quantize | src/App.tsx:364-365 | The quantised y is a multiple of the 3-unit line tolerance, and lies in (y - 1.5, y + 1.5]. |
| Structure.QuantizeExamples | src/App.tsx:364-365 | 120 and 121.4 quantise to the same line 120; 125 goes to 126. |
| Structure.PageNodes | src/App.tsx:359-370 | A page yields at most one node per item. Each node carries its page and its own item index, and the nodes are in item order. |
| Structure.DocNodes | src/App.tsx:356-371 | Document nodes come in page-then-item order, with pages numbered from 1 and every id within its page's item range. |
| Structure.PageNodesSound | src/App.tsx:359-370 | Every node of a page is the node of a non-blank item at its own index, with that item's x, quantised y, height and text. |
| Structure.PageNodesComplete | src/App.tsx:359-370 | Every non-blank item of a page yields its node. |
| Structure.DocNodesExactly | src/App.tsx:356-371 | Extraction keeps exactly the non-blank items. The item at page q, index i yields a node iff it is not blank, and every node comes from such an item. |
| Structure.ExtractedIdsUnique | src/App.tsx:362 | Extracted ids are pairwise distinct, although blank items leave gaps in the indices. |
| Structure.ExtractPage | src/App.tsx:359-370 | The per-page `forEach` loop computes exactly `PageNodes` for that page. |
| Structure.ExtractNodes | src/App.tsx:356-371 | The page loop computes exactly `DocNodes`. |
| Features.Encode | src/App.tsx:376-381 | The vector has 4 entries: x/1000 and fontSize/100. The digit flag is 0 or 1, and is 1 iff the trimmed text starts with a digit. The length feature lies in [0,1]: it is 1 iff the untrimmed text has at least 500 code units, and otherwise it is length/500. |
| Features.DigitFlagOfText | src/App.tsx:379 | The digit flag is 1 iff the first non-whitespace character of the text is a digit. |
| Features.EncodeAll | src/App.tsx:376-381 | The matrix has one row of width 4 per node. Row i holds node i's scaled x and font size, a 0/1 flag set iff its trimmed text starts with a digit, and a length feature in [0,1] that is 1 iff the text has at least 500 code units and is otherwise the length over 500. |
| Features.DotOfWidthFour | src/App.tsx:440-442 | A score is the sum of the four products of corresponding features. |
| Features.Scores | src/App.tsx:436-443 | `matMul(seed.transpose())` has one entry per node. Entry i is the sum of the four products of row i's features with the seed row's. |
| Features.DotScales | src/App.tsx:440-449 | Scaling a node's vector scales its score by the same factor. The score is an unnormalised dot product, not a cosine. |
| Features.SeedNeedNotMatchItself | src/App.tsx:440-449 | A one-letter run at x = 100 in a 10-unit font scores below the threshold against itself, so the seed is not always selected. |
| Matching.SeedIndex | src/App.tsx:430-432 | `findIndex` gives nothing iff no node carries the id. Otherwise it gives the first node that does. |
| Matching.FindSeed | src/App.tsx:430-433 | The search loop returns -1 when the id is unknown and the first matching index otherwise. |
| Matching.RawMatchSymmetric | src/App.tsx:440-449 | Matching is mutual: node i scores above the threshold against seed k iff node k does against seed i. |
| Matching.CollectActiveLines | src/App.tsx:446-453 | The active lines are exactly the lines of the nodes scoring strictly above 0.985. |
| Matching.ExpandLines | src/App.tsx:455-458 | The new id set is the old set plus the id of every node on an active line. |
| Flowing.SelectableBlocks | src/App.tsx:214-219 | There is at most one selectable block per block. Each is numbered by its own traversal index, in traversal order. |
| Flowing.SelectableBlocksSound | src/App.tsx:214-219 | Every selectable block comes from a block with non-blank text at its index, with x = Math.round(left - containerLeft). |
| Flowing.SelectableBlocksComplete | src/App.tsx:214-219 | Every block with non-blank text becomes selectable. |
| Flowing.AssignDocxIds | src/App.tsx:211-219 | The marking loop computes exactly `SelectableBlocks`. |
| Flowing.SeedX | src/App.tsx:465-471 | The seed lookup fails iff no selectable block carries the id. Otherwise it returns the x of the first block that carries it. |
| Flowing.AlignBlocks | src/App.tsx:472-480 | The new id set is the old set plus the id of every block with abs(x - seedX) < 15. |
| Selections.PdfMatch | src/App.tsx:429-462 | An unknown seed leaves the selection unchanged. A known seed sets the type to PDF. The match never removes an id and keeps the column lists. |
| Selections.PdfMatchExactly | src/App.tsx:445-460 | After a PDF match, an id is selected iff it was selected before or it belongs to a node on the line of a raw match. |
| Selections.LineMateSelected | src/App.tsx:455-458 | A node sharing a line with a raw match is selected whatever its own score. |
| Selections.NoOffLineAddition | src/App.tsx:448-458 | Every newly selected id belongs to a node on an active line. |
| Selections.PdfMatchIdempotent | src/App.tsx:445-460 | Matching the same seed twice gives the same selection as matching it once. |
| Selections.DocxMatch | src/App.tsx:464-482 | An unknown seed leaves the selection unchanged. A known seed sets the type to DOCX and the seed itself is selected. No id is removed and the column lists are kept. |
| Selections.DocxMatchExactly | src/App.tsx:473-481 | After a DOCX match, an id is selected iff it was before or a block carrying it is strictly within 15 units of the seed's x. |
| Selections.AlignmentBoundary | src/App.tsx:477 | The tolerance is strict: a block 14 units away is selected, and one 15 units away is not added. |
| Selections.Without | src/App.tsx:703 | `filter(x => x !== col)` keeps exactly the other columns. It is a no-op when the column is absent, and on a list without duplicates it removes exactly one entry. |
| Selections.ToggleColumn | src/App.tsx:699-712 | The toggle sets the type to XLSX and keeps the node ids. Other sheets are untouched and the sheet's key is present. The column is present afterwards iff it was absent before, every other column keeps its membership, and a list without duplicates stays without duplicates. |
| Selections.Toggled | src/App.tsx:702-704 | The toggled list changes the membership of that column and of no other. On a list without duplicates it stays without duplicates, and it shrinks by one when the column was present and grows by one when it was absent. |
| Selections.ColumnsOf | src/App.tsx:701 | A sheet never toggled has no selected columns. On a spreadsheet selection, no sheet holds more columns than the selected count. |
| Selections.ToggleTwice | src/App.tsx:699-712 | Toggling twice restores the same set of columns. The list is identical when the column was absent; when it was present, the column moves to the end. |
| Selections.WithoutAppended | src/App.tsx:702-704 | Removing a column just appended to a list that lacked it gives the list back. |
| Selections.IsColumnSelected | src/App.tsx:692-694 | A column header is marked only on a spreadsheet selection, and a marked column is counted in the badge. |
| Selections.IsHighlighted | src/App.tsx:148-151 | A node is highlighted when selected and not excluded. A highlighted node of a PDF or DOCX selection is counted in the badge. |
| Selections.ExcludeHidesOnlyThatId | src/App.tsx:148-151 | Appending an id to the excluded list unhighlights that id and leaves every other id's highlight unchanged. |
| Selections.SumLengths | src/App.tsx:507-510 | The column total is at least the length of every sheet's list, and it is 0 iff every list is empty. |
| Selections.SumLengthsSplit | src/App.tsx:507-510 | The column total splits over any one sheet, whatever order the sheets are summed in. |
| Selections.TotalSelectedCount | src/App.tsx:504-513 | The count is 0 with no type. For XLSX it bounds every sheet's list and is 0 iff every list is empty. For PDF and DOCX it is the number of selected ids, excluded ones included. |
| Selections.ToggleCount | src/App.tsx:504-513 | On a spreadsheet selection without duplicate columns, and on the empty selection left by a file switch or "Clear Patterns" (count 0 to 1), a toggle moves the selected count by exactly one, down when removing and up when adding. |
| Session.Workspace.constructor | src/App.tsx:316-324 | The initial state has no type, no ids, no column lists, no exclusions and an empty node table. |
| Session.Workspace.SwitchToFile | src/App.tsx:387-395 | Opening a file sets its type, resets the selection and the excluded list, and makes the count 0. The node table is not reset. |
| Session.Workspace.BuildStructuralMap | src/App.tsx:352-385 | With the tensor library loaded and at least one node extracted, the node table becomes `DocNodes` and the matrix its encoding. Otherwise both are left untouched. |
| Session.Workspace.RenderDocx | src/App.tsx:207-231 | After rendering, the selectable blocks are exactly `SelectableBlocks`. |
| Session.Workspace.PerformPatternMatch | src/App.tsx:428-483 | A PDF file gets `PdfMatch` and a DOCX file gets `DocxMatch`. Any other file type leaves the selection unchanged. Only the selection changes. |
| Session.Workspace.MatchPdf | src/App.tsx:429-462 | The PDF branch's loops compute `PdfMatch` on the current node table and matrix. |
| Session.Workspace.MatchDocx | src/App.tsx:464-482 | The DOCX branch's loops compute `DocxMatch` on the current blocks. |
| Session.Workspace.ToggleColumnOnActiveSheet | src/App.tsx:698-714 | The toggle applies to the active sheet, and the column header's selected state flips. On a spreadsheet selection, and on the first toggle after a reset, the count moves by one. No sheet gains a duplicate. |
| Session.Workspace.SelectSheet | src/App.tsx:759 | A sheet tab makes its index the active sheet and changes nothing else. |
| Session.Workspace.Exclude | src/App.tsx:671-673 | The remove button appends the id to the excluded list and nothing else. The same handler appears at lines 775-777. That id stops being highlighted and every other id keeps its state. |
| Session.Workspace.ClearPatterns | src/App.tsx:596-599 | "Clear Patterns" empties the selection and the excluded list, so nothing is highlighted. |

## Left out

- Rendering is not part of this model. That covers the PDF.js canvas and text layer, the page virtualisation and visibility observer, and docx-preview's layout. Their outputs (text items and block positions) are parameters.
- XLSX parsing and the sheet grid are not modelled. A sheet is only an index, and a column only an integer.
- TensorFlow.js is modelled by its result: the matrix product and `dataSync`. Tensor allocation, `tidy` and `dispose` are left out.
- IEEE-754 arithmetic is left out: features and scores are exact reals. A score within rounding of 0.985 could fall on the other side in the browser.
- Asynchrony is left out. `await`, React's batched state updates and the stale closure over `selections` are all taken as sequential, one event at a time.
- A rendering failure is not modelled. That covers a page whose text cannot be read and a document the DOCX renderer rejects: both are caught and logged.
- Script loading from CDNs, file upload, the file library and its removal, and the export button are not modelled.
- Structure.ExtractNodes: models a successful run. In the source, a failure while reading a page aborts the whole extraction, so no node is built for the file.
- Selections.TotalSelectedCount: counts excluded ids as selected, because the code takes the size of the id set and never consults the excluded list.
- Session.Workspace.SwitchToFile: deliberately keeps the node table and matrix of the last PDF with text. A text-less PDF therefore still matches seeds against the previous document's nodes, as the source does.
- Session.Workspace.SelectSheet: the active sheet index is not reset when a file is opened, as in the source.

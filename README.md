# Table reconstruction core, modelled in Dafny

This project models the table-recognition pipeline in `predict_table.py`.
Three models run on a table image. The structure model emits two things:
a stream of HTML structure tokens and one bounding box per table cell. The
text detector emits quadrilateral text boxes, and the recogniser emits one
`(text, score)` pair per box. The core turns these outputs into table
markup, and it is what this project models:

- **Reading order** (`BoxSort`, `sorted_boxes`). The text boxes are put in
  reading order. First comes a stable sort on the first corner's `(y, x)`.
  Then one left-to-right pass of adjacent swaps runs over the sorted list.
  It swaps two neighbours of the same visual row (y values closer than 10)
  when the later one starts further left.
- **Box arithmetic** (`Geometry`). Each quadrilateral becomes a rectangle
  one unit outside its extreme corners. A crop window is the rectangle
  padded by `pix` on every side, each side clamped on its own (`expand`): the
  left and top sides are kept at or above 0, the right and bottom sides at or
  below the image width and height. Nothing keeps the window from being
  inverted for a box beyond the image.
- **Cell matching** (`CellMatch`, `TableSystem.match_result`). Each text box,
  in order, goes to the cell with the lexicographically smallest
  `(1 - iou, distance)` key, the first such cell on ties. The box's index is
  appended to that cell's list in the match map.
- **Markup assembly** (`TableHtml`, `TableSystem.get_pred_html`). The
  structure tokens are walked with a counter of cell-closing tokens (tokens
  containing `</td>`). Before each of them, the texts matched to that cell
  are injected, character by character, into the accumulator. They first
  go through the clean-up rules: leading-space stripping, fixed-offset bold
  slicing, skipping of empty fragments, separating spaces and optional bold
  wrapping.
- **Glue** (`TableSystem`, `rebuild_table`). Matching and assembly are
  composed.

The Python operations that update state in place keep that form here:
- the swap pass works on an `array`;
- `match_result` grows a map in a nested loop;
- `get_pred_html` grows its accumulator list in a loop over the tokens and,
  for each cell, a loop over its texts.

Each of these methods is proved against a specification function:
`ReadingOrder`, `MatchMap` and `Render`. The properties the source relies on
are proved about those functions as lemmas.

Python errors become values of `Errors.Result`:
- `EmptyStructure`: the `sorted_distances[0]` failure when there are text
  boxes but no cells;
- `IndexError`: an empty match list, or a text index past the end of the
  recognition results.

Two details of the code are modelled as written:
- The bold test at `predict_table.py:118` is membership in the
  `(text, score)` tuple. It holds only when the first text of the cell is
  exactly `<b>`, not when it merely contains it.
- `list.extend` on a string pushes one piece per character, so the
  returned list holds the injected texts as single characters.

A cell holding `"<b>Q1</b>"` and `"Total"` is therefore emitted as
`Q1 Total`, without a bold wrap (`TableHtml.InlineBoldExample`). A reading
that expects `<b>Q1 Total</b>` for that cell does not match the code, and
the model follows the code.

## Model

| member | source | states |
|---|---|---|
| Geometry.QuadToRect | predict_table.py:65-70 | Each side of the rectangle lies one unit outside an actual corner coordinate, and every corner lies strictly inside the rectangle. |
| Geometry.ToRects | predict_table.py:64-71 | One rectangle per quadrilateral, in order, each being that quadrilateral's rectangle. |
| Geometry.Expand | predict_table.py:13-25 | `x0 >= 0`, `y0 >= 0`, `x1 <= w` and `y1 <= h`. Each side moves out by exactly `pix` if and only if that side's own bound still holds, and otherwise equals that bound. `x0` and `y0` have no upper clamp, and `x1` and `y1` no lower one. |
| Geometry.CropWindows | predict_table.py:78-80 | One crop window per text rectangle, in order: the rectangle's `Expand` with margin 2, so every window has `x0 >= 0`, `y0 >= 0`, `x1 <= w` and `y1 <= h`. |
| Geometry.ExpandInvertedExample | predict_table.py:21-24 | A box lying right of the image gives a window with `x0 = 98` beyond `x1 = w = 50`: the one-sided clamps do not keep the window inside the image. |
| BoxSort.Insert | predict_table.py:37 | Insertion yields the old boxes plus the new one, as a multiset. |
| BoxSort.InsertSorted | predict_table.py:37 | Inserting into a `(y, x)`-sorted list keeps it sorted. |
| BoxSort.SortByKeySorted | predict_table.py:37 | The modelled `sorted(..., key=(y, x))` yields a list sorted on the first corner's `(y, x)`. |
| BoxSort.Step | predict_table.py:41-45 | One step of the pass exchanges positions `i` and `i + 1` exactly when the swap condition holds, and changes nothing else. |
| BoxSort.SwapPassPermutes | predict_table.py:40-45 | The swap pass keeps the length and the multiset of boxes. |
| BoxSort.SwapPassRowOrdered | predict_table.py:40-45 | Starting from a `(y, x)`-sorted list, after the pass no box is followed by one lying `RowTolerance` or more above it. |
| BoxSort.ReadingOrderProperties | predict_table.py:28-46 | `sorted_boxes` returns a permutation of its input. Two boxes whose y values differ by 10 or more stay in `(y, x)`-sorted order. |
| BoxSort.SwapPassInPlace | predict_table.py:40-45 | The loop of swaps through a temporary, run on an array, leaves the array holding exactly the result of the swap pass over its old contents. |
| BoxSort.SortedBoxes | predict_table.py:28-46 | The in-place swap loop over the array yields exactly the reading order, a permutation of the input with no box followed by one a row above it. |
| BoxSort.RowCorrectionExample | predict_table.py:37-45 | Two boxes of one row sorted right-to-left by y are swapped into left-to-right order. |
| BoxSort.SinglePassExample | predict_table.py:40-45 | The pass cascades a moved box to the right but does not fully sort a row: three boxes arriving right to left end as middle, left, right. |
| CellMatch.FirstMinIndexIsFirstMinimum | predict_table.py:104-106 | The index `distances.index(sorted(distances)[0])` holds a minimal key, and every earlier index holds a strictly greater one. |
| CellMatch.NearestIsFirstMinimum | predict_table.py:99-106 | Keys are compared in the sort key's order `(1 - iou, distance)`; the source's list holds `(distance, 1 - iou)` and swaps only in the sort key, which the model folds into the key. The cell chosen for a text box has a key lexicographically no greater than every cell's key. Every cell with a smaller index has a strictly greater key. |
| CellMatch.AddTo | predict_table.py:105-108 | Appending text `i` to cell `c` creates or extends `c`'s list by `[i]` and leaves every other list unchanged. |
| CellMatch.GroupByCellPartitions | predict_table.py:95-108 | Each text index is in its chosen cell's list. Every listed index is a text index that chose that cell. Every list is non-empty and strictly increasing. |
| CellMatch.MatchMapPartition | predict_table.py:94-109 | Every key is a valid cell index. Every text index `0 .. n-1` is in the list of its nearest cell and in no other list. Every list is non-empty and strictly increasing. |
| CellMatch.MatchResult | predict_table.py:94-109 | The nested loop fails with `EmptyStructure` exactly when there are text boxes and no cells. Otherwise it returns the match map. |
| TableHtml.DropFirst | predict_table.py:128-129 | `s[3:]` is what follows the first three characters of `s`: three characters fewer, each the character three places further on, or empty if `s` is shorter. |
| TableHtml.DropLast | predict_table.py:130-131 | `s[:-4]` is `s` without its last four characters: four characters fewer, each equal to the character at the same place in `s`, or empty if `s` is shorter. |
| TableHtml.CellContent | predict_table.py:117-138 | A cell with exactly one text emits that text verbatim. |
| TableHtml.CellInjection | predict_table.py:116-138 | A cell without a match list gets no text. The injection fails exactly when the cell's list is empty or names a text past the recognition results. |
| TableHtml.CleanFragment | predict_table.py:123-135 | The clean-up steps on one text of a multi-text cell produce exactly that text's fragment, the empty string standing for a skipped text. What a fragment is follows in the four rows below. |
| TableHtml.FragmentSeparated | predict_table.py:123-135 | In a cell of several texts, an empty text is skipped, and every fragment but the last that is not skipped ends in a space, so neighbouring texts never run together. |
| TableHtml.FragmentLast | predict_table.py:123-135 | The last text of a cell of several gets no separating space: its fragment is the cleaned text itself. |
| TableHtml.BoldPairStripped | predict_table.py:128-131 | A text wrapped in exactly one `<b>`…`</b>` pair loses that pair and nothing else. |
| TableHtml.CleanedTrimsEnds | predict_table.py:126-131 | The clean-up only cuts characters off the two ends of a text: its result is always a contiguous slice of the text. |
| TableHtml.PushFragments | predict_table.py:121-136 | The loop over a cell's texts pushes the characters of the merged fragments. It fails with `IndexError` exactly when some index is past the recognition results. |
| TableHtml.InjectCell | predict_table.py:116-138 | The optional `<b>`, the fragments and the optional `</b>` are pushed as the characters of the cell content. It fails exactly on an empty list or an out-of-range index. |
| TableHtml.GetPredHtml | predict_table.py:111-144 | The accumulator equals `Render`: each tag in order, each cell-closing tag preceded by its cell's injected characters. The returned string is the accumulator joined. It fails exactly when `Render` fails. |
| TableHtml.RenderOkIff | predict_table.py:113-141 | The walk succeeds if and only if no cell number below the count of cell-closing tags has an empty or out-of-range match list. |
| TableHtml.RenderErrSticks | predict_table.py:113-141 | An error in a prefix of the tokens is an error of the whole walk. |
| TableHtml.RenderPassThrough | predict_table.py:112-143 | With an empty match map the accumulator is the token list itself. |
| TableHtml.RenderExtends | predict_table.py:112-143 | The accumulator only grows: the pieces for a prefix of the tokens are a prefix of the pieces for all of them. |
| TableHtml.JoinChars | predict_table.py:136-144 | Joining the single characters `extend` pushed gives back the injected string. |
| TableHtml.JoinAppend | predict_table.py:144 | Joining a concatenation is concatenating the joins. |
| TableHtml.PlainFragment | predict_table.py:123-135 | A plain text in a multi-text cell passes the clean-up unchanged, plus one space unless it is last. |
| TableHtml.MergedPlain | predict_table.py:121-136 | Several plain texts in one cell merge to their `' '.join`. |
| TableHtml.InlineBoldExample | predict_table.py:118-135 | `["<b>Q1</b>", "Total"]` merges to `Q1 Total`, without a bold wrap. |
| TableHtml.BoldCellExample | predict_table.py:118-138 | `["<b>", "Total"]` is wrapped in bold and gives `<b>Total</b>`. |
| TableHtml.TwoCellExample | predict_table.py:111-144 | A one-row table with two one-text cells `Name` and `42` gives `<table><tr><td>Name</td><td>42</td></tr></table>`. |
| TableSystem.RebuildTable | predict_table.py:88-92 | It fails with `EmptyStructure` when there are text boxes and no cells. Otherwise it succeeds or fails exactly as the markup walk over the match map does, with that walk's pieces and their join. |
| TableSystem.RebuildSucceeds | predict_table.py:88-92 | When every text box has a recognised text and matching cannot fail, the markup walk succeeds. |
| TableSystem.NoTextPassThrough | predict_table.py:88-92 | With no text boxes the markup is the structure tokens unchanged. |

## Left out

- Model loading and inference in `TableSystem.__init__` and `__call__` (lines 53-61, 83) are calls into neural networks. Their outputs (the structure result, the quadrilaterals, the recognised pairs) are inputs to the model.
- Image copying and cropping (lines 59, 81-82), including the `int()` truncation of the crop window, are array plumbing. The window computation itself (lines 78-80) is `Geometry.CropWindows`.
- `to_excel` (lines 48-50) wraps a library that is not part of this model.
- The `__main__` driver (lines 147-167) only iterates files and prints.
- `distance` and `compute_iou` come from `utils.matcher`, which is not part of this model. They are parameters, and the matcher uses only the keys they produce.
- The `dt_boxes is None` test (line 74) can never hold: `np.array` never returns `None`.
- Geometry.QuadToRect: coordinates are integers. The source's float coordinates, and float rounding in the `1 - iou` keys (modelled as `real`), are not modelled.
- BoxSort.SortByKeySorted: stability of the sort holds by construction of `Insert` (a box goes after every box with a key no greater than its own). It is not stated as a separate lemma.
- `rebuild_table` hands the recognised texts over unchecked. The model does not require one text per text box. `TableSystem.RebuildSucceeds` states that when there is one, the walk cannot fail.

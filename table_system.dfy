/** The glue of `TableSystem`: split the structure result, match the text
    boxes to the cells, and assemble the markup. The models that produce the
    structure result, the text boxes and the recognised texts are outside
    this model; their outputs are the inputs here. */
module TableSystem {
  import opened Errors
  import CellMatch
  import opened TableHtml

  /** The structure model's output: the structure tokens and one box per
      cell, in cell order. */
  datatype StructureResult<C> = StructureResult(structures: seq<string>, bboxes: seq<C>)

  /** `rebuild_table`: match the text boxes to the cells, then inject the
      recognised texts into the structure tokens. */
  method RebuildTable<T, C>(structureRes: StructureResult<C>, dtBoxes: seq<T>, recRes: seq<OcrRecord>,
                            distance: (T, C) -> real, iou: (T, C) -> real)
    returns (r: Result<PredHtml>)
    ensures |structureRes.bboxes| == 0 && |dtBoxes| > 0 ==> r == Err(EmptyStructure)
    ensures |structureRes.bboxes| > 0 || |dtBoxes| == 0 ==>
      var m := CellMatch.MatchMap(dtBoxes, structureRes.bboxes, distance, iou);
      (r.Err? <==> Render(structureRes.structures, m, recRes).Err?) &&
      (r.Err? ==> r.error == IndexError) &&
      (r.Ok? ==> r.value.pieces == Render(structureRes.structures, m, recRes).value &&
                 r.value.html == Join(r.value.pieces))
  {
    var predStructures := structureRes.structures;
    var predBboxes := structureRes.bboxes;
    var matchedIndex := CellMatch.MatchResult(dtBoxes, predBboxes, distance, iou);
    if matchedIndex.Err? {
      return Err(matchedIndex.error);
    }
    r := GetPredHtml(predStructures, matchedIndex.value, recRes);
  }

  /** When every text box has a recognised text and there is a cell to
      match against, the markup is always assembled: each match list is
      non-empty and holds only indices of text boxes. */
  lemma RebuildSucceeds<T, C>(structures: seq<string>, dtBoxes: seq<T>, predBboxes: seq<C>, recRes: seq<OcrRecord>,
                              distance: (T, C) -> real, iou: (T, C) -> real)
    requires |predBboxes| > 0 || |dtBoxes| == 0
    requires |dtBoxes| <= |recRes|
    ensures Render(structures, CellMatch.MatchMap(dtBoxes, predBboxes, distance, iou), recRes).Ok?
  {
    var m := CellMatch.MatchMap(dtBoxes, predBboxes, distance, iou);
    CellMatch.MatchMapPartition(dtBoxes, predBboxes, distance, iou);
    forall c: nat | c < CountCells(structures)
      ensures !BadCell(c, m, recRes)
    {
      if c in m {
        assert |m[c]| > 0;
        assert forall k :: 0 <= k < |m[c]| ==> m[c][k] < |recRes|;
      }
    }
    RenderOkIff(structures, m, recRes);
  }

  /** With no text boxes nothing is matched and the markup is the structure
      tokens joined. */
  lemma NoTextPassThrough<T, C>(structures: seq<string>, dtBoxes: seq<T>, predBboxes: seq<C>, recRes: seq<OcrRecord>,
                                distance: (T, C) -> real, iou: (T, C) -> real)
    requires |dtBoxes| == 0
    ensures Render(structures, CellMatch.MatchMap(dtBoxes, predBboxes, distance, iou), recRes) == Ok(structures)
  {
    assert CellMatch.Assignment(dtBoxes, predBboxes, distance, iou) == [];
    RenderPassThrough(structures, recRes);
  }
}

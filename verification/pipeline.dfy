/** How the stages hand their results to each other. The description stage stores one
    sheet, "Sheet1"; the F1 stage computes its column from that sheet's rows; the barcode
    stage reads whatever workbook is stored. */
module Pipeline {
  import opened Wrappers
  import opened Tables
  import opened Sequences
  import opened RatingFilter
  import opened DescriptionJoin
  import opened SubstituteLookup
  import opened BarcodeLookup

  /** The header of the sheet the description stage stores: the filtered-ratings columns
      and the joined description, without the dropped key `Sku code`. */
  const DescribedColumns: seq<string> := ["ean", "sku", "id", "rating", "Sku description"]

  /** The header of the sheet the F1 stage stores. */
  const SubstitutedColumns: seq<string> := DescribedColumns + [F1Column]

  /** The header of the sheet the barcode stage writes. */
  const EnrichedColumns: seq<string> := SubstitutedColumns + [BarcodeColumn, BrandColumn]

  function DescribedCells(r: DescribedRow): seq<Cell>
  {
    [r.ean, Some(r.sku), r.id, Some(IntText(r.rating)), r.description]
  }

  /** The sheet "Sheet1" the description stage writes. */
  function DescribedSheet(rows: seq<DescribedRow>): (s: Frame)
    ensures s.name == "Sheet1" && s.columns == DescribedColumns && |s.rows| == |rows|
    ensures "Sku code" !in s.columns
  {
    var cells := seq(|rows|, i requires 0 <= i < |rows| => DescribedCells(rows[i]));
    var s := Sheet("Sheet1", DescribedColumns, cells);
    assert WellFormed(s);
    s
  }

  /** The header of the stored sheet names each column once. */
  lemma DescribedColumnsDistinct()
    ensures forall i, j :: 0 <= i < j < |DescribedColumns| ==> DescribedColumns[i] != DescribedColumns[j]
  {
  }

  /** Under the k-th column of the stored sheet, row i holds the k-th cell of joined row i. */
  lemma DescribedColumnCells(rows: seq<DescribedRow>, k: nat)
    requires k < |DescribedColumns|
    ensures forall i :: 0 <= i < |rows| ==>
              Column(DescribedSheet(rows), DescribedColumns[k])[i] == DescribedCells(rows[i])[k]
  {
    DescribedColumnsDistinct();
    IndexOfUnique(DescribedColumns, DescribedColumns[k], k);
  }

  /** The stored sheet holds the joined rows: under every column, row i holds that field
      of joined row i, the rating as decimal text. In particular the `sku` column the F1
      stage reads back is the joined rows' sku. */
  lemma DescribedSheetCells(rows: seq<DescribedRow>)
    ensures var s := DescribedSheet(rows);
            forall i :: 0 <= i < |rows| ==>
              && Column(s, "ean")[i] == rows[i].ean
              && Column(s, "sku")[i] == Some(rows[i].sku)
              && Column(s, "id")[i] == rows[i].id
              && Column(s, "rating")[i] == Some(IntText(rows[i].rating))
              && Column(s, "Sku description")[i] == rows[i].description
  {
    DescribedColumnCells(rows, 0);
    DescribedColumnCells(rows, 1);
    DescribedColumnCells(rows, 2);
    DescribedColumnCells(rows, 3);
    DescribedColumnCells(rows, 4);
  }

  /** The F1 stage as written. The column is computed (`df_excel['F1 to Use'] = ...`),
      but the workbook it then stores is written from `df_dict`, which nothing ever fills,
      so it has no sheet. When a lookup raises, the handler leaves the described workbook
      in place. */
  function SubstituteStageAsWritten(rows: seq<DescribedRow>, reference: seq<seq<Cell>>): seq<Frame>
  {
    match SubstituteColumn(rows, reference)
    case None => [DescribedSheet(rows)]
    case Some(_) => []
  }

  /** The F1 stage as intended: the described sheet with the computed column stored; when a
      lookup raises, the described workbook stays as it was. */
  function SubstituteStage(rows: seq<DescribedRow>, reference: seq<seq<Cell>>): (book: seq<Frame>)
    ensures |book| == 1 && book[0].name == "Sheet1" && |book[0].rows| == |rows|
    ensures book[0].columns == if AllFound(rows, reference) then SubstitutedColumns else DescribedColumns
    ensures !AllFound(rows, reference) ==> book == [DescribedSheet(rows)]
  {
    var sheet := DescribedSheet(rows);
    match SubstituteColumn(rows, reference)
    case None => [sheet]
    case Some(values) =>
      assert F1Column !in sheet.columns;
      [SetColumn(sheet, F1Column, values)]
  }

  /** Row i of the stored sheet carries the "F1 to Use" value of row i's sku, and every
      described column keeps its cells. */
  lemma SubstituteStageCells(rows: seq<DescribedRow>, reference: seq<seq<Cell>>)
    requires AllFound(rows, reference)
    ensures var sheet := SubstituteStage(rows, reference)[0];
            && F1Column in sheet.columns
            && (forall i :: 0 <= i < |rows| ==>
                  Column(sheet, F1Column)[i] == SubstituteFor(rows[i].sku, reference).cell)
            && forall c :: c in DescribedColumns ==>
                 c in sheet.columns && Column(sheet, c) == Column(DescribedSheet(rows), c)
  {
    var described := DescribedSheet(rows);
    var values := SubstituteColumn(rows, reference).value;
    SetColumnCells(described, F1Column, values);
    assert SubstituteStage(rows, reference)[0] == SetColumn(described, F1Column, values);
    assert F1Column !in DescribedColumns;
  }

  /** A workbook of one sheet with the F1 column goes through the barcode stage whole. */
  lemma SingleSheetProcessed(book: seq<Frame>, table: seq<BarcodeRow>)
    requires |book| == 1 && F1Column in book[0].columns
    ensures BarcodeStage(book, table) == [AddBarcodes(book[0], table)]
  {
    assert book[..0] == [];
  }

  /** A lone sheet without the F1 column is skipped, leaving an empty workbook. */
  lemma SingleSheetSkipped(sheet: Frame, table: seq<BarcodeRow>)
    requires F1Column !in sheet.columns
    ensures BarcodeStage([sheet], table) == []
  {
    assert [sheet][..0] == [];
  }

  /** The F1 column of the stage as written never reaches the barcode stage: whatever the
      input, that stage writes no sheet. The intended stage hands it one sheet with the
      column whenever every lookup succeeds. */
  lemma AsWrittenLosesSubstitutes(rows: seq<DescribedRow>, reference: seq<seq<Cell>>,
                                  table: seq<BarcodeRow>)
    ensures forall s :: s in SubstituteStageAsWritten(rows, reference) ==> F1Column !in s.columns
    ensures BarcodeStage(SubstituteStageAsWritten(rows, reference), table) == []
    ensures AllFound(rows, reference) ==> |BarcodeStage(SubstituteStage(rows, reference), table)| == 1
  {
    F1ColumnPlacement();
    if !AllFound(rows, reference) {
      SingleSheetSkipped(DescribedSheet(rows), table);
    } else {
      SingleSheetProcessed(SubstituteStage(rows, reference), table);
    }
  }

  /** Once the F1 stage stores its sheet, the barcode stage returns it with the barcode
      columns appended; when a lookup raised, it writes no sheet. */
  lemma BarcodeSheetShape(rows: seq<DescribedRow>, reference: seq<seq<Cell>>, table: seq<BarcodeRow>)
    ensures var out := BarcodeStage(SubstituteStage(rows, reference), table);
            && |out| <= 1
            && (|out| == 1 <==> AllFound(rows, reference))
            && (|out| == 1 ==> out[0].columns == EnrichedColumns && |out[0].rows| == |rows|)
  {
    var book := SubstituteStage(rows, reference);
    var sheet := book[0];
    assert book == [sheet];
    if AllFound(rows, reference) {
      assert sheet.columns == SubstitutedColumns;
      NewColumnsAbsent();
      F1ColumnPlacement();
      FreshSheetProcessed(sheet, table);
    } else {
      assert sheet.columns == DescribedColumns;
      F1ColumnPlacement();
      SingleSheetSkipped(sheet, table);
    }
  }

  /** The F1 column is among the columns the F1 stage writes and not among those before it. */
  lemma F1ColumnPlacement()
    ensures F1Column in SubstitutedColumns && F1Column !in DescribedColumns
  {
    assert SubstitutedColumns[|DescribedColumns|] == F1Column;
  }

  /** A lone sheet with the F1 column and neither barcode column comes out with the two
      barcode columns appended. */
  lemma FreshSheetProcessed(sheet: Frame, table: seq<BarcodeRow>)
    requires F1Column in sheet.columns
    requires BarcodeColumn !in sheet.columns && BrandColumn !in sheet.columns
    ensures |BarcodeStage([sheet], table)| == 1
    ensures BarcodeStage([sheet], table)[0].columns == sheet.columns + [BarcodeColumn, BrandColumn]
    ensures |BarcodeStage([sheet], table)[0].rows| == |sheet.rows|
  {
    SingleSheetProcessed([sheet], table);
  }

  /** The barcode columns are not among the columns the earlier stages write. */
  lemma NewColumnsAbsent()
    ensures BarcodeColumn !in SubstitutedColumns && BrandColumn !in SubstitutedColumns
  {
  }

  /** Barcode and brand of every described row, once the F1 stage stores its sheet: the
      barcode-table entry of that row's own "F1 to Use" value. */
  lemma BarcodesFollowSubstitutes(rows: seq<DescribedRow>, reference: seq<seq<Cell>>,
                                  table: seq<BarcodeRow>, i: nat)
    requires i < |rows| && AllFound(rows, reference)
    ensures var out := BarcodeStage(SubstituteStage(rows, reference), table);
            var f1 := SubstituteFor(rows[i].sku, reference).cell;
            && |out| == 1 && BarcodeColumn in out[0].columns && BrandColumn in out[0].columns
            && |Column(out[0], BarcodeColumn)| == |rows|
            && Column(out[0], BarcodeColumn)[i] == BarcodeFor(f1, table).barcode
            && Column(out[0], BrandColumn)[i] == BarcodeFor(f1, table).brand
  {
    var sheet := SubstituteStage(rows, reference)[0];
    SingleSheetProcessed(SubstituteStage(rows, reference), table);
    SubstituteStageCells(rows, reference);
    var f1 := Column(sheet, F1Column)[i];
    assert f1 == SubstituteFor(rows[i].sku, reference).cell;
    var t := AddBarcodes(sheet, table);
    AddBarcodesCells(sheet, table);
    assert Column(t, BarcodeColumn)[i] == BarcodeFor(f1, table).barcode;
    assert Column(t, BrandColumn)[i] == BarcodeFor(f1, table).brand;
  }

  /** The chain of stages main runs once the listing is read and a token obtained, with
      the corrected F1 stage and the barcode stage enabled: when no listing row qualifies,
      no later stage runs and no workbook is stored. */
  function Enriched(listing: seq<Probe>, descriptions: seq<DescriptionRef>,
                    reference: seq<seq<Cell>>, table: seq<BarcodeRow>): seq<Frame>
  {
    var filtered := Filtered(listing);
    if filtered == [] then []
    else BarcodeStage(SubstituteStage(Join(filtered, descriptions), reference), table)
  }

  /** The whole chain with distinct description keys: when some listing row qualifies and
      every lookup succeeds, one row per qualifying listing row under the full header;
      otherwise nothing. */
  lemma EnrichedRowCount(listing: seq<Probe>, descriptions: seq<DescriptionRef>,
                         reference: seq<seq<Cell>>, table: seq<BarcodeRow>)
    requires UniqueCodes(descriptions)
    ensures var described := Join(Filtered(listing), descriptions);
            var out := Enriched(listing, descriptions, reference, table);
            && |out| <= 1
            && (|out| == 1 <==> |Kept(listing, Screen)| > 0 && AllFound(described, reference))
            && (|out| == 1 ==>
                  && |out[0].rows| == |Kept(listing, Screen)|
                  && out[0].columns == ["ean", "sku", "id", "rating", "Sku description",
                                        "F1 to Use", "Barcode", "GS1 Brand"])
  {
    var described := Join(Filtered(listing), descriptions);
    FilteredSelects(listing);
    JoinPreservesRows(Filtered(listing), descriptions);
    assert |described| == |Kept(listing, Screen)|;
    if Filtered(listing) != [] {
      BarcodeSheetShape(described, reference, table);
      FullHeader();
    }
  }

  /** The header written out. */
  lemma FullHeader()
    ensures EnrichedColumns ==
            ["ean", "sku", "id", "rating", "Sku description", "F1 to Use", "Barcode", "GS1 Brand"]
  {
  }
}

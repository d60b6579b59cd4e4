/** update_excel_with_barcodes: for every sheet that has an "F1 to Use" column, look each
    F1 value up in the barcode table (first row whose SKU equals it), strip the formula
    quoting from its Number, and add the columns "Barcode" and "GS1 Brand". Sheets without
    the column are left out of the result. */
module BarcodeLookup {
  import opened Wrappers
  import opened Tables
  import opened Sequences

  const F1Column := "F1 to Use"
  const BarcodeColumn := "Barcode"
  const BrandColumn := "GS1 Brand"

  /** The three columns of the uploaded barcode table the stage reads. */
  datatype BarcodeRow = BarcodeRow(sku: Cell, number: Cell, brand: Cell)

  /** `str.replace(ch, '')`: every occurrence of `ch` removed, the rest kept in order. */
  function RemoveChar(s: string, ch: char): (t: string)
    ensures ch !in t
    ensures |t| <= |s|
    ensures forall c :: c != ch ==> (c in t <==> c in s)
    decreases |s|
  {
    if s == [] then []
    else
      assert forall c :: c in s <==> c == s[0] || c in s[1..];
      (if s[0] == ch then [] else [s[0]]) + RemoveChar(s[1..], ch)
  }

  /** `.replace('=', '').replace('"', '')`: spreadsheet formula quoting removed. */
  function CleanNumber(s: string): (t: string)
    ensures '=' !in t && '"' !in t
    ensures forall c :: c != '=' && c != '"' ==> (c in t <==> c in s)
  {
    RemoveChar(RemoveChar(s, '='), '"')
  }

  /** Removing a character that is not there changes nothing. */
  lemma {:induction false} RemoveAbsent(s: string, ch: char)
    requires ch !in s
    ensures RemoveChar(s, ch) == s
    decreases |s|
  {
    if s != [] {
      assert s[0] != ch;
      assert ch !in s[1..];
      RemoveAbsent(s[1..], ch);
    }
  }

  /** Cleaning leaves a number alone exactly when it holds no `=` and no `"`. */
  lemma CleanNumberFixes(s: string)
    ensures CleanNumber(s) == s <==> '=' !in s && '"' !in s
  {
    if '=' !in s && '"' !in s {
      RemoveAbsent(s, '=');
      RemoveAbsent(s, '"');
    }
  }

  /** Stripping is idempotent. */
  lemma CleanNumberIdempotent(s: string)
    ensures CleanNumber(CleanNumber(s)) == CleanNumber(s)
  {
    CleanNumberFixes(CleanNumber(s));
  }

  /** The one-pass reading of the two replaces: keep every character but `=` and `"`. */
  function DropQuoting(s: string): string
    decreases |s|
  {
    if s == [] then []
    else (if s[0] == '=' || s[0] == '"' then [] else [s[0]]) + DropQuoting(s[1..])
  }

  lemma {:induction false} RemoveCharAppend(a: string, b: string, ch: char)
    ensures RemoveChar(a + b, ch) == RemoveChar(a, ch) + RemoveChar(b, ch)
    decreases |a|
  {
    if a != [] {
      assert (a + b)[0] == a[0];
      assert (a + b)[1..] == a[1..] + b;
      RemoveCharAppend(a[1..], b, ch);
      var x := if a[0] == ch then [] else [a[0]];
      calc {
        RemoveChar(a + b, ch);
        x + RemoveChar(a[1..] + b, ch);
        x + (RemoveChar(a[1..], ch) + RemoveChar(b, ch));
        (x + RemoveChar(a[1..], ch)) + RemoveChar(b, ch);
      }
    } else {
      assert a + b == b;
    }
  }

  lemma {:induction false} DropQuotingAppend(a: string, b: string)
    ensures DropQuoting(a + b) == DropQuoting(a) + DropQuoting(b)
    decreases |a|
  {
    if a != [] {
      assert (a + b)[0] == a[0];
      assert (a + b)[1..] == a[1..] + b;
      DropQuotingAppend(a[1..], b);
      var x := if a[0] == '=' || a[0] == '"' then [] else [a[0]];
      calc {
        DropQuoting(a + b);
        x + DropQuoting(a[1..] + b);
        x + (DropQuoting(a[1..]) + DropQuoting(b));
        (x + DropQuoting(a[1..])) + DropQuoting(b);
      }
    } else {
      assert a + b == b;
    }
  }

  lemma {:induction false} DropQuotingAbsent(s: string)
    requires '=' !in s && '"' !in s
    ensures DropQuoting(s) == s
    decreases |s|
  {
    if s != [] {
      assert s[0] in s;
      assert forall c :: c in s[1..] ==> c in s;
      DropQuotingAbsent(s[1..]);
    }
  }

  /** The two replaces in a row remove exactly the quoting characters, keeping the order
      of everything else. */
  lemma {:induction false} CleanNumberIsDropQuoting(s: string)
    ensures CleanNumber(s) == DropQuoting(s)
    decreases |s|
  {
    if s != [] {
      var head, tail := s[..1], s[1..];
      assert s == head + tail;
      CleanNumberIsDropQuoting(tail);
      RemoveCharAppend(head, tail, '=');
      RemoveCharAppend(RemoveChar(head, '='), RemoveChar(tail, '='), '"');
      assert RemoveChar(head, '=') == (if s[0] == '=' then [] else [s[0]]);
      assert RemoveChar(RemoveChar(head, '='), '"') == (if s[0] == '=' || s[0] == '"' then [] else [s[0]]);
    }
  }

  /** A number exported as a text formula, `="digits"`, cleans back to its digits
      (`="1234567890123"` gives `1234567890123`). */
  lemma CleanQuotedNumber(digits: string)
    requires '=' !in digits && '"' !in digits
    ensures CleanNumber("=\"" + digits + "\"") == digits
  {
    var s := "=\"" + digits + "\"";
    CleanNumberIsDropQuoting(s);
    DropQuotingAppend("=\"" + digits, "\"");
    DropQuotingAppend("=\"", digits);
    DropQuotingAbsent(digits);
    assert DropQuoting("=\"") == [];
    assert DropQuoting("\"") == [];
  }

  /** Whether a barcode row's SKU equals an F1 value; an empty cell on either side never
      matches (NaN compares unequal to everything). */
  predicate SkuMatches(r: BarcodeRow, f1: Cell)
  {
    f1.Some? && r.sku == f1
  }

  /** The position of the first matching barcode row. */
  function FirstMatch(f1: Cell, table: seq<BarcodeRow>): (j: Option<nat>)
    ensures j.None? <==> forall i :: 0 <= i < |table| ==> !SkuMatches(table[i], f1)
    ensures j.Some? ==> && j.value < |table|
                        && SkuMatches(table[j.value], f1)
                        && forall i :: 0 <= i < j.value ==> !SkuMatches(table[i], f1)
    decreases |table|
  {
    if table == [] then None
    else if SkuMatches(table[0], f1) then Some(0)
    else
      match FirstMatch(f1, table[1..])
      case None => None
      case Some(j) =>
        assert forall i :: 1 <= i <= j ==> table[i] == table[1..][i - 1];
        Some(j + 1)
  }

  /** The barcode and brand of one F1 value. */
  datatype Enrichment = Enrichment(barcode: Cell, brand: Cell)

  /** Barcode and brand for one F1 value: from the first row whose SKU equals it, the
      Number as text with the quoting removed and the Main Brand as it is; both null when
      no row matches. */
  function BarcodeFor(f1: Cell, table: seq<BarcodeRow>): (e: Enrichment)
    ensures e.barcode.None? <==> f1.None? || forall i :: 0 <= i < |table| ==> table[i].sku != f1
    ensures e.barcode.None? ==> e.brand.None?
    ensures e.barcode.Some? ==> '=' !in e.barcode.value && '"' !in e.barcode.value
    ensures e.barcode.Some? ==>
              exists j :: && 0 <= j < |table|
                          && table[j].sku == f1
                          && (forall i :: 0 <= i < j ==> table[i].sku != f1)
                          && e == Enrichment(Some(CleanNumber(AsText(table[j].number))), table[j].brand)
  {
    match FirstMatch(f1, table)
    case None => Enrichment(None, None)
    case Some(j) => Enrichment(Some(CleanNumber(AsText(table[j].number))), table[j].brand)
  }

  /** The barcode and brand columns of a sheet, one entry per F1 value. */
  function Barcodes(f1s: seq<Cell>, table: seq<BarcodeRow>): (col: seq<Cell>)
    ensures |col| == |f1s|
    ensures forall i :: 0 <= i < |f1s| ==> col[i] == BarcodeFor(f1s[i], table).barcode
  {
    seq(|f1s|, i requires 0 <= i < |f1s| => BarcodeFor(f1s[i], table).barcode)
  }

  function Brands(f1s: seq<Cell>, table: seq<BarcodeRow>): (col: seq<Cell>)
    ensures |col| == |f1s|
    ensures forall i :: 0 <= i < |f1s| ==> col[i] == BarcodeFor(f1s[i], table).brand
  {
    seq(|f1s|, i requires 0 <= i < |f1s| => BarcodeFor(f1s[i], table).brand)
  }

  /** The stage's work on one sheet that has the F1 column: "Barcode", then "GS1 Brand",
      assigned as columns. */
  function AddBarcodes(sheet: Frame, table: seq<BarcodeRow>): (t: Frame)
    requires F1Column in sheet.columns
    ensures t.name == sheet.name && |t.rows| == |sheet.rows|
    ensures BarcodeColumn in t.columns && BrandColumn in t.columns
    ensures forall c :: c in t.columns <==> c in sheet.columns || c == BarcodeColumn || c == BrandColumn
    ensures BarcodeColumn !in sheet.columns && BrandColumn !in sheet.columns ==>
              t.columns == sheet.columns + [BarcodeColumn, BrandColumn]
  {
    var f1s := Column(sheet, F1Column);
    AssignedTwice(sheet.columns, BarcodeColumn, BrandColumn);
    SetColumn(SetColumn(sheet, BarcodeColumn, Barcodes(f1s, table)), BrandColumn, Brands(f1s, table))
  }

  /** Row i of the new columns holds the barcode and brand of row i's F1 value, and every
      other column keeps its cells. */
  lemma AddBarcodesCells(sheet: Frame, table: seq<BarcodeRow>)
    requires F1Column in sheet.columns
    ensures var t := AddBarcodes(sheet, table);
            && |Column(t, BarcodeColumn)| == |sheet.rows|
            && (forall i :: 0 <= i < |sheet.rows| ==>
                  && Column(t, BarcodeColumn)[i] == BarcodeFor(Column(sheet, F1Column)[i], table).barcode
                  && Column(t, BrandColumn)[i] == BarcodeFor(Column(sheet, F1Column)[i], table).brand)
            && (forall c :: c in sheet.columns && c != BarcodeColumn && c != BrandColumn ==>
                  Column(t, c) == Column(sheet, c))
  {
    var f1s := Column(sheet, F1Column);
    SetTwoColumnsCells(sheet, BarcodeColumn, Barcodes(f1s, table), BrandColumn, Brands(f1s, table));
  }

  /** Two column assignments in a row, to different names: the cells. */
  lemma SetTwoColumnsCells(sheet: Frame, a: string, xs: seq<Cell>, b: string, ys: seq<Cell>)
    requires a != b && |xs| == |sheet.rows| && |ys| == |sheet.rows|
    ensures var t := SetColumn(SetColumn(sheet, a, xs), b, ys);
            && a in t.columns && b in t.columns
            && Column(t, a) == xs && Column(t, b) == ys
            && (forall c :: c in sheet.columns && c != a && c != b ==> c in t.columns && Column(t, c) == Column(sheet, c))
  {
    var u := SetColumn(sheet, a, xs);
    SetColumnCells(sheet, a, xs);
    SetColumnCells(u, b, ys);
  }

  /** A sheet is processed when it has the F1 column, and skipped otherwise. */
  function ProcessSheet(sheet: Frame, table: seq<BarcodeRow>): Option<Frame>
  {
    if F1Column in sheet.columns then Some(AddBarcodes(sheet, table)) else None
  }

  /** The workbook the stage writes: its processed sheets, in workbook order. */
  function BarcodeStage(book: seq<Frame>, table: seq<BarcodeRow>): seq<Frame>
  {
    FilterMap(book, (s: Frame) => ProcessSheet(s, table))
  }

  /** Exactly the sheets with an F1 column reach the output, in their order, each with
      the barcode columns added; no sheet is added and the rest are dropped. */
  lemma BarcodeStageSelects(book: seq<Frame>, table: seq<BarcodeRow>)
    ensures var out := BarcodeStage(book, table);
            var idx := Kept(book, (s: Frame) => ProcessSheet(s, table));
            && |out| == |idx| <= |book|
            && (forall i :: 0 <= i < |book| ==> (i in idx <==> F1Column in book[i].columns))
            && (forall k :: 0 <= k < |out| ==>
                  F1Column in book[idx[k]].columns && out[k] == AddBarcodes(book[idx[k]], table))
  {
    FilterMapSelects(book, (s: Frame) => ProcessSheet(s, table));
    KeptSpec(book, (s: Frame) => ProcessSheet(s, table));
  }
}

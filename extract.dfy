/** process_pdf_file and its two extractors (app.py:67-198), over what
    the PDF libraries returned: the text-layer test, the pdfplumber path
    with its header cleaning and row padding, and the img2table path. */
module Extract {
  import opened Wrappers
  import opened Text
  import opened Columns
  import opened Frames

  // ---------------------------------------------------------------------
  // Text layer or scanned (app.py:72-79)
  // ---------------------------------------------------------------------

  /** What `page.extract_text()` did for one page: the text it returned
      (None for no text), or an exception. */
  datatype PageText = Extracted(text: Option<string>) | ExtractFails

  /** What `pdfplumber.open` did: the pages, or an exception. */
  datatype Opening = Opened(pages: seq<PageText>) | OpenFails

  /** The page's text is truthy. */
  predicate HasText(p: PageText) {
    p.Extracted? && p.text.Some? && p.text.value != ""
  }

  /** any(page.extract_text() for page in pdf.pages): true at the first
      page with text, false when no page has any, and None when a page
      raises before a page with text is reached. */
  function AnyText(pages: seq<PageText>): Option<bool> {
    if pages == [] then Some(false)
    else if pages[0].ExtractFails? then None
    else if HasText(pages[0]) then Some(true)
    else AnyText(pages[1..])
  }

  /** is_image_pdf: the file failed to open, a page raised, or no page has
      text. */
  function IsScanned(pdf: Opening): bool {
    pdf.OpenFails? || AnyText(pdf.pages) != Some(true)
  }

  /** A PDF is read through its text layer exactly when some page has text
      and every page before it returned without raising. */
  lemma {:induction false} TextLayerIff(pages: seq<PageText>)
    ensures !IsScanned(Opened(pages)) <==>
      exists i :: 0 <= i < |pages| && HasText(pages[i]) && forall j :: 0 <= j < i ==> pages[j].Extracted?
  {
    if pages != [] && pages[0].Extracted? && !HasText(pages[0]) {
      var tail := pages[1..];
      TextLayerIff(tail);
      if exists i :: 0 <= i < |tail| && HasText(tail[i]) && forall j :: 0 <= j < i ==> tail[j].Extracted? {
        var i :| 0 <= i < |tail| && HasText(tail[i]) && forall j :: 0 <= j < i ==> tail[j].Extracted?;
        assert HasText(pages[i + 1]);
        assert forall j :: 0 <= j < i + 1 ==> pages[j].Extracted? by {
          forall j | 0 <= j < i + 1
            ensures pages[j].Extracted?
          {
            if j > 0 {
              assert pages[j] == tail[j - 1];
            }
          }
        }
      }
      if exists i :: 0 <= i < |pages| && HasText(pages[i]) && forall j :: 0 <= j < i ==> pages[j].Extracted? {
        var i :| 0 <= i < |pages| && HasText(pages[i]) && forall j :: 0 <= j < i ==> pages[j].Extracted?;
        assert i > 0;
        assert HasText(tail[i - 1]);
        assert forall j :: 0 <= j < i - 1 ==> tail[j].Extracted? by {
          forall j | 0 <= j < i - 1
            ensures tail[j].Extracted?
          {
            assert tail[j] == pages[j + 1];
          }
        }
      }
    } else if pages != [] && HasText(pages[0]) {
      assert HasText(pages[0]);
    }
  }

  /** A page that raises after a page with text does not matter; a page
      that raises before it does. */
  lemma ScanExamples()
    ensures !IsScanned(Opened([Extracted(Some("成績單")), ExtractFails]))
    ensures IsScanned(Opened([ExtractFails, Extracted(Some("成績單"))]))
    ensures IsScanned(Opened([Extracted(None), Extracted(Some(""))]))
    ensures IsScanned(Opened([])) && IsScanned(OpenFails)
  {
    assert [ExtractFails, Extracted(Some("成績單"))][0].ExtractFails?;
    var blank := [Extracted(None), Extracted(Some(""))];
    assert blank[1..][1..] == [];
  }

  // ---------------------------------------------------------------------
  // The pdfplumber path (app.py:88-137)
  // ---------------------------------------------------------------------

  /** A table as `page.extract_tables()` gives it: rows of cells, the
      first row being the header. */
  type RawTable = seq<seq<RawCell>>

  /** [normalize_text(cell) for cell in row] */
  function NormalizeRow(cells: seq<RawCell>): (r: seq<string>)
    ensures |r| == |cells|
  {
    seq(|cells|, i requires 0 <= i < |cells| => NormalizeText(cells[i]))
  }

  /** A data row brought to the header's width: padded with "" or cut. */
  function Fitted(row: seq<string>, width: nat): (r: seq<string>)
    ensures |r| == width
    ensures forall i :: 0 <= i < width ==> r[i] == (if i < |row| then row[i] else "")
  {
    if |row| < width then row + seq(width - |row|, _ => "")
    else if |row| > width then row[..width]
    else row
  }

  /** The padding and truncation of one data row. */
  method FitRow(row: seq<string>, width: nat) returns (fitted: seq<string>)
    ensures fitted == Fitted(row, width)
  {
    fitted := row;
    if |fitted| < width {
      fitted := fitted + seq(width - |fitted|, _ => "");
    } else if |fitted| > width {
      fitted := fitted[..width];
    }
  }

  /** The data rows of a table, normalised and fitted to the header. */
  function DataRows(rows: seq<seq<RawCell>>, width: nat): (r: seq<seq<string>>)
    ensures |r| == |rows|
  {
    if rows == [] then []
    else DataRows(rows[..|rows| - 1], width) + [Fitted(NormalizeRow(rows[|rows| - 1]), width)]
  }

  lemma {:induction false} DataRowsAt(rows: seq<seq<RawCell>>, width: nat, i: nat)
    requires i < |rows|
    ensures DataRows(rows, width)[i] == Fitted(NormalizeRow(rows[i]), width)
  {
    if i < |rows| - 1 {
      DataRowsAt(rows[..|rows| - 1], width, i);
    }
  }

  /** The header the pdfplumber path gives a table: the first row,
      normalized, rewritten and de-duplicated (`[]` for an empty table). */
  function TextHeader(table: RawTable): seq<string> {
    UniqueColumns(CanonicalHeader(if table == [] then [] else NormalizeRow(table[0])))
  }

  /** The DataFrame one extracted table contributes, or None when the
      table is skipped for an empty header or for having no data rows. */
  function TextTable(table: RawTable): (r: Option<Table>) {
    var cols := TextHeader(table);
    if cols == [] || |table| <= 1 then None
    else Some(Table(cols, DataRows(table[1..], |cols|)))
  }

  /** The loop over `table[1:]`: each row normalised and fitted to the
      header. */
  method ExtractRows(rows: seq<seq<RawCell>>, width: nat) returns (data: seq<seq<string>>)
    ensures data == DataRows(rows, width)
  {
    data := [];
    for i := 0 to |rows|
      invariant data == DataRows(rows[..i], width)
    {
      assert rows[..i + 1][..i] == rows[..i];
      var rowData := FitRow(NormalizeRow(rows[i]), width);
      data := data + [rowData];
    }
    assert rows[..|rows|] == rows;
  }

  /** One table's trip through the loop body of the pdfplumber path. */
  method ExtractTable(table: RawTable) returns (t: Option<Table>)
    ensures t == TextTable(table)
  {
    var header := if table == [] then [] else NormalizeRow(table[0]);
    var cleaned := CleanHeader(header);
    var unique := MakeUniqueColumns(cleaned);
    assert unique == TextHeader(table);
    if unique == [] {
      return None;
    }
    var data := ExtractRows(table[1..], |unique|);
    if data == [] {
      return None;
    }
    t := Some(Table(unique, data));
  }

  /** A table is skipped exactly when its header row is missing or empty,
      or it has no data row; a kept table has the header's width, one row
      per data row, and each cell is the normalized cell at that place, or
      "" past the end of a short row. */
  lemma TextTableShape(table: RawTable)
    ensures TextTable(table).None? <==> |table| <= 1 || |table[0]| == 0
    ensures TextTable(table).Some? ==>
      var t := TextTable(table).value;
      Rectangular(t) && |t.columns| == |table[0]| && |t.rows| == |table| - 1 &&
      (forall j :: 0 <= j < |t.columns| ==> t.columns[j] != []) &&
      forall i, j :: 0 <= i < |t.rows| && 0 <= j < |t.columns| ==>
        t.rows[i][j] == (if j < |table[i + 1]| then NormalizeText(table[i + 1][j]) else "")
  {
    UniqueColumnsNonEmpty(CanonicalHeader(if table == [] then [] else NormalizeRow(table[0])));
    if TextTable(table).Some? {
      var t := TextTable(table).value;
      var w := |t.columns|;
      forall i | 0 <= i < |t.rows|
        ensures t.rows[i] == Fitted(NormalizeRow(table[i + 1]), w)
      {
        DataRowsAt(table[1..], w, i);
        assert table[1..][i] == table[i + 1];
      }
    }
  }

  /** What `page.extract_tables()` did for one page: the tables, or None
      for an exception. */
  type PageTables = Option<seq<RawTable>>

  /** The DataFrames kept from a list of tables, in order. */
  function KeptTables(tables: seq<RawTable>): (r: seq<Table>)
    ensures forall t :: t in r ==> Rectangular(t)
  {
    if tables == [] then []
    else
      var rest := KeptTables(tables[..|tables| - 1]);
      var last := tables[|tables| - 1];
      match TextTable(last)
      case None => rest
      case Some(t) => TextTableShape(last); rest + [t]
  }

  /** The DataFrames kept from all pages, or None when some page raised. */
  function KeptFromPages(pages: seq<PageTables>): (r: Option<seq<Table>>)
    ensures r.Some? ==> forall t :: t in r.value ==> Rectangular(t)
  {
    if pages == [] then Some([])
    else match (KeptFromPages(pages[..|pages| - 1]), pages[|pages| - 1])
      case (Some(kept), Some(tables)) => Some(kept + KeptTables(tables))
      case _ => None
  }

  /** process_text_pdf_with_pdfplumber: any exception gives the empty
      frame. */
  function TextLayerFrame(pages: seq<PageTables>): (f: Frame)
    ensures WellFormed(f)
  {
    match KeptFromPages(pages)
    case None => EmptyFrame
    case Some(kept) => ConcatOrEmptyWellFormed(kept); ConcatOrEmpty(kept)
  }

  lemma {:induction false} KeptFromPagesFails(pages: seq<PageTables>, i: nat)
    requires i < |pages| && pages[i].None?
    ensures KeptFromPages(pages).None?
    decreases |pages|
  {
    if i < |pages| - 1 {
      KeptFromPagesFails(pages[..|pages| - 1], i);
    }
  }

  /** The loop over the tables of one page of the pdfplumber path. */
  method PageFrames(tables: seq<RawTable>) returns (kept: seq<Table>)
    ensures kept == KeptTables(tables)
  {
    kept := [];
    for k := 0 to |tables|
      invariant kept == KeptTables(tables[..k])
    {
      assert tables[..k + 1][..k] == tables[..k];
      var df := ExtractTable(tables[k]);
      if df.Some? {
        kept := kept + [df.value];
      }
    }
    assert tables[..|tables|] == tables;
  }

  /** The page and table loops of the pdfplumber path. */
  method ExtractTextLayer(pages: seq<PageTables>) returns (frame: Frame)
    ensures frame == TextLayerFrame(pages)
  {
    var dfs: seq<Table> := [];
    for p := 0 to |pages|
      invariant KeptFromPages(pages[..p]) == Some(dfs)
    {
      assert pages[..p + 1][..p] == pages[..p];
      if pages[p].None? {
        KeptFromPagesFails(pages, p);
        return EmptyFrame;
      }
      var kept := PageFrames(pages[p].value);
      dfs := dfs + kept;
    }
    assert pages[..|pages|] == pages;
    if dfs == [] {
      return EmptyFrame;
    }
    var combined := Concat(dfs);
    frame := if combined.None? then EmptyFrame else combined.value;
  }

  // ---------------------------------------------------------------------
  // The img2table path (app.py:139-198)
  // ---------------------------------------------------------------------

  /** A DataFrame as img2table returns it: column labels and rows of
      cells. */
  datatype OcrTable = OcrTable(columns: seq<RawCell>, rows: seq<seq<RawCell>>)

  predicate WellShaped(t: OcrTable) {
    Fits(|t.columns|, t.rows)
  }

  /** The DataFrame one OCR table contributes: the labels normalized,
      rewritten and de-duplicated, every cell normalized; None for an
      empty DataFrame. */
  function OcrFrameOf(t: OcrTable): (r: Option<Table>) {
    if |t.columns| == 0 || |t.rows| == 0 then None
    else Some(Table(UniqueColumns(CanonicalHeader(NormalizeRow(t.columns))), NormalizedRows(t.rows)))
  }

  /** `df.applymap(normalize_text)` on the rows. */
  function NormalizedRows(rows: seq<seq<RawCell>>): (r: seq<seq<string>>)
    ensures |r| == |rows|
  {
    if rows == [] then [] else NormalizedRows(rows[..|rows| - 1]) + [NormalizeRow(rows[|rows| - 1])]
  }

  lemma {:induction false} NormalizedRowsAt(rows: seq<seq<RawCell>>, i: nat)
    requires i < |rows|
    ensures NormalizedRows(rows)[i] == NormalizeRow(rows[i])
  {
    if i < |rows| - 1 {
      NormalizedRowsAt(rows[..|rows| - 1], i);
    }
  }

  /** One OCR table's trip through the loop body: skipped when empty,
      otherwise its labels cleaned and its cells normalised. */
  method OcrTableFrame(df: OcrTable) returns (r: Option<Table>)
    ensures r == OcrFrameOf(df)
  {
    if |df.columns| == 0 || |df.rows| == 0 {
      return None;
    }
    var header := NormalizeRow(df.columns);
    var cleaned := CleanHeader(header);
    var unique := MakeUniqueColumns(cleaned);
    r := Some(Table(unique, NormalizedRows(df.rows)));
  }

  /** The DataFrames kept from the OCR tables of all pages, in order. */
  function KeptOcr(pages: seq<seq<OcrTable>>): (r: seq<Table>)
  {
    if pages == [] then []
    else
      var last := pages[|pages| - 1];
      KeptOcr(pages[..|pages| - 1]) + KeptOcrPage(last)
  }

  function KeptOcrPage(tables: seq<OcrTable>): (r: seq<Table>)
  {
    if tables == [] then []
    else
      var last := tables[|tables| - 1];
      KeptOcrPage(tables[..|tables| - 1]) + (match OcrFrameOf(last) case None => [] case Some(t) => [t])
  }

  /** A kept OCR table has one name per label, none empty, and every row
      keeps its width with each cell normalized. */
  lemma OcrFrameShape(t: OcrTable)
    requires WellShaped(t)
    ensures OcrFrameOf(t).None? <==> |t.columns| == 0 || |t.rows| == 0
    ensures OcrFrameOf(t).Some? ==>
      var f := OcrFrameOf(t).value;
      Rectangular(f) && |f.columns| == |t.columns| && |f.rows| == |t.rows| &&
      (forall j :: 0 <= j < |f.columns| ==> f.columns[j] != []) &&
      forall i, j :: 0 <= i < |f.rows| && 0 <= j < |f.columns| ==>
        f.rows[i][j] == NormalizeText(t.rows[i][j])
  {
    UniqueColumnsNonEmpty(CanonicalHeader(NormalizeRow(t.columns)));
    forall i | 0 <= i < |t.rows|
      ensures NormalizedRows(t.rows)[i] == NormalizeRow(t.rows[i])
    {
      NormalizedRowsAt(t.rows, i);
    }
  }

  lemma {:induction false} KeptOcrRectangular(pages: seq<seq<OcrTable>>)
    requires forall p, k :: 0 <= p < |pages| && 0 <= k < |pages[p]| ==> WellShaped(pages[p][k])
    ensures forall t :: t in KeptOcr(pages) ==> Rectangular(t)
  {
    if pages != [] {
      KeptOcrRectangular(pages[..|pages| - 1]);
      KeptOcrPageRectangular(pages[|pages| - 1]);
    }
  }

  lemma {:induction false} KeptOcrPageRectangular(tables: seq<OcrTable>)
    requires forall k :: 0 <= k < |tables| ==> WellShaped(tables[k])
    ensures forall t :: t in KeptOcrPage(tables) ==> Rectangular(t)
  {
    if tables != [] {
      KeptOcrPageRectangular(tables[..|tables| - 1]);
      OcrFrameShape(tables[|tables| - 1]);
    }
  }

  /** process_image_pdf_with_ocr over what `doc.extract_tables` did: the
      tables page by page, or None for an exception. No tables at all
      and any exception give the empty frame. */
  function OcrFrame(extracted: Option<seq<seq<OcrTable>>>): (f: Frame)
    requires extracted.Some? ==>
      forall p, k :: 0 <= p < |extracted.value| && 0 <= k < |extracted.value[p]| ==> WellShaped(extracted.value[p][k])
    ensures WellFormed(f)
  {
    match extracted
    case None => EmptyFrame
    case Some(pages) =>
      KeptOcrRectangular(pages);
      ConcatOrEmptyWellFormed(KeptOcr(pages));
      ConcatOrEmpty(KeptOcr(pages))
  }

  /** The loop over the tables of one page of the img2table path. */
  method OcrPageFrames(tables: seq<OcrTable>) returns (kept: seq<Table>)
    ensures kept == KeptOcrPage(tables)
  {
    kept := [];
    for k := 0 to |tables|
      invariant kept == KeptOcrPage(tables[..k])
    {
      assert tables[..k + 1][..k] == tables[..k];
      var df := OcrTableFrame(tables[k]);
      if df.Some? {
        kept := kept + [df.value];
      }
    }
    assert tables[..|tables|] == tables;
  }

  /** The page and table loops of the img2table path. */
  method ExtractOcr(extracted: Option<seq<seq<OcrTable>>>) returns (frame: Frame)
    requires extracted.Some? ==>
      forall p, k :: 0 <= p < |extracted.value| && 0 <= k < |extracted.value[p]| ==> WellShaped(extracted.value[p][k])
    ensures frame == OcrFrame(extracted)
  {
    if extracted.None? || extracted.value == [] {
      return EmptyFrame;
    }
    var pages := extracted.value;
    var dfs: seq<Table> := [];
    for p := 0 to |pages|
      invariant dfs == KeptOcr(pages[..p])
    {
      assert pages[..p + 1][..p] == pages[..p];
      var kept := OcrPageFrames(pages[p]);
      dfs := dfs + kept;
    }
    assert pages[..|pages|] == pages;
    KeptOcrRectangular(pages);
    if dfs == [] {
      return EmptyFrame;
    }
    var combined := Concat(dfs);
    frame := if combined.None? then EmptyFrame else combined.value;
  }

  // ---------------------------------------------------------------------
  // process_pdf_file (app.py:67-86)
  // ---------------------------------------------------------------------

  /** What the PDF libraries report for one upload: the text-layer test's
      view, the pdfplumber tables and the img2table tables. */
  datatype Upload = Upload(opening: Opening, textPages: seq<PageTables>,
                           ocr: Option<seq<seq<OcrTable>>>)

  predicate OcrWellShaped(u: Upload) {
    u.ocr.Some? ==>
      forall p, k :: 0 <= p < |u.ocr.value| && 0 <= k < |u.ocr.value[p]| ==> WellShaped(u.ocr.value[p][k])
  }

  /** The frame process_pdf_file returns. */
  function ExtractedFrame(u: Upload): (f: Frame)
    requires OcrWellShaped(u)
    ensures WellFormed(f)
  {
    if IsScanned(u.opening) then OcrFrame(u.ocr) else TextLayerFrame(u.textPages)
  }

  method ProcessPdf(u: Upload) returns (frame: Frame)
    requires OcrWellShaped(u)
    ensures frame == ExtractedFrame(u)
  {
    if IsScanned(u.opening) {
      frame := ExtractOcr(u.ocr);
    } else {
      frame := ExtractTextLayer(u.textPages);
    }
  }
}
